/** The random greeting of the home page: a greeting is drawn until one
    that was not used recently comes up, and the recently used indices are
    kept in an insertion-ordered set of at most eight entries. */
module Greeting {
  import Seqs
  import Numerals

  /** `maxRecentGreetings`. */
  const MaxRecentGreetings: nat := 8

  /** The greeting about the hours left in the day, for the hour at which
      the module was loaded. */
  function HoursLeftGreeting(hour: nat): (g: string)
    requires hour < 24
    ensures 24 - hour > 4 ==> g == "Quedan " + Numerals.ToString(24 - hour, 10) + " horas en el día. ¡Úsalas sabiamente!"
    ensures 24 - hour <= 4 ==> g == "Solo quedan " + Numerals.ToString(24 - hour, 10) + " horas en el día"
  {
    var hoursLeft := 24 - hour;
    if hoursLeft > 4 then "Quedan " + Numerals.ToString(hoursLeft, 10) + " horas en el día. ¡Úsalas sabiamente!"
    else "Solo quedan " + Numerals.ToString(hoursLeft, 10) + " horas en el día"
  }

  /** The greetings that do not depend on the date. */
  const FixedGreetings: seq<string> :=
    [ "¡Hagamos que hoy cuente! **1f680**",
      "¡Termina tus tareas y conquista el día!",
      "¡Aprovecha el poder de la productividad!",
      "Fija tus metas, cúmplelas, repite.",
      "¡Hoy es una nueva oportunidad para ser productivo!",
      "Haz que cada momento cuente.",
      "Mantente organizado, mantente adelante.",
      "¡Toma el control de tu día!",
      "Una tarea a la vez, ¡tú puedes!",
      "La productividad es la clave del éxito. **1f511**",
      "¡Convirtamos planes en logros!",
      "Comienza pequeño, logra grandes cosas.",
      "Sé eficiente, sé productivo.",
      "¡Aprovecha el poder de la productividad!",
      "¡Prepárate para hacer que las cosas sucedan!",
      "¡Es hora de marcar esas tareas! **2705**",
      "¡Comienza tu día con un plan! **1f5d3-fe0f**",
      "Mantén el enfoque, mantén la productividad.",
      "Desbloquea tu potencial de productividad. **1f513**",
      "¡Convierte tu lista de pendientes en una lista de completados! **1f4dd**" ]

  /** `greetingsText`, with the locale's names of the weekday and the month
      as inputs. */
  function GreetingsText(weekday: string, month: string, hour: nat): (texts: seq<string>)
    requires hour < 24
    ensures |texts| == 23
    ensures texts[22] == HoursLeftGreeting(hour)
  {
    FixedGreetings +
    [ "¡Que tengas un maravilloso " + weekday + "!",
      "¡Feliz " + month + "! Un gran mes para la productividad!",
      HoursLeftGreeting(hour) ]
  }

  /** `Math.floor(r * length)` for a draw `0 <= r < 1` of `Math.random`. */
  function DrawIndex(r: real, length: nat): (i: int)
    requires 0.0 <= r < 1.0
    ensures length > 0 ==> 0 <= i < length
    ensures length == 0 ==> i == 0
  {
    var x := r * (length as real);
    assert x < length as real || length == 0 by {
      if length > 0 {
        assert (1.0 - r) * (length as real) > 0.0;
      }
    }
    x.Floor
  }

  /** The recent set after recording a fresh index: the index is added
      last, and when the set grows past the bound its oldest entry goes. */
  function Record(recent: seq<nat>, index: nat): (r: seq<nat>)
    requires index !in recent
  {
    var added := recent + [index];
    if |added| > MaxRecentGreetings then added[1..] else added
  }

  /** Recording keeps the entries distinct and within the bound, holds the
      new index, and drops exactly the oldest entry when the set was full. */
  lemma RecordEffect(recent: seq<nat>, index: nat)
    requires index !in recent && Seqs.NoDup(recent) && |recent| <= MaxRecentGreetings
    ensures var r := Record(recent, index);
            Seqs.NoDup(r) && |r| <= MaxRecentGreetings && index in r && r[|r| - 1] == index &&
            (|recent| < MaxRecentGreetings ==> r == recent + [index]) &&
            (|recent| == MaxRecentGreetings ==>
               recent[0] !in r && r == recent[1..] + [index] &&
               forall x :: x in recent && x != recent[0] ==> x in r)
  {
    var added := recent + [index];
    assert forall i :: 0 <= i < |recent| ==> added[i] == recent[i];
    if |added| > MaxRecentGreetings {
      assert added[1..] == recent[1..] + [index];
      forall x | x in recent && x != recent[0] ensures x in added[1..] {
        var i :| 0 <= i < |recent| && recent[i] == x;
        assert added[1..][i - 1] == x;
      }
    }
  }

  /** The termination of the retry loop: with fewer recent indices than
      greetings some index in range is not recent. */
  lemma {:induction false} FreshIndexExists(recent: seq<nat>, n: nat)
    requires |recent| < n
    ensures exists i :: 0 <= i < n && i !in recent
    decreases n
  {
    if (n - 1) in recent {
      var rest := Seqs.Filter(recent, (x: nat) => x != n - 1);
      RemovalShrinks(recent, n - 1);
      FreshIndexExists(rest, n - 1);
      var i :| 0 <= i < n - 1 && i !in rest;
      assert i !in recent;
    } else {
      assert 0 <= n - 1 < n && (n - 1) !in recent;
    }
  }

  /** Removing an element that occurs shortens the sequence. */
  lemma {:induction false} RemovalShrinks(s: seq<nat>, v: nat)
    requires v in s
    ensures |Seqs.Filter(s, (x: nat) => x != v)| < |s|
  {
    if s[0] != v {
      RemovalShrinks(s[1..], v);
    }
  }

  /** The bounded recent-greetings set of the module. */
  class RecentGreetings {
    /** The recently used indices, oldest first. */
    var recent: seq<nat>

    ghost predicate Valid()
      reads this
    {
      Seqs.NoDup(recent) && |recent| <= MaxRecentGreetings
    }

    constructor ()
      ensures recent == [] && Valid()
    {
      recent := [];
    }

    /** `getUniqueGreeting` over the random draws `draws`: the first draw
        whose index is not recent is chosen, recorded, and its greeting
        returned. */
    method GetUniqueGreeting(texts: seq<string>, draws: seq<real>) returns (greeting: string, index: nat)
      requires Valid() && |texts| > 0
      requires forall k :: 0 <= k < |draws| ==> 0.0 <= draws[k] < 1.0
      requires exists k :: 0 <= k < |draws| && DrawIndex(draws[k], |texts|) !in recent
      modifies this
      ensures exists k :: 0 <= k < |draws| && index == DrawIndex(draws[k], |texts|) &&
                forall j :: 0 <= j < k ==> DrawIndex(draws[j], |texts|) in old(recent)
      ensures index < |texts| && index !in old(recent) && greeting == texts[index]
      ensures recent == Record(old(recent), index)
      ensures Valid() && index in recent
    {
      var k := 0;
      index := DrawIndex(draws[0], |texts|);
      while index in recent
        invariant 0 <= k < |draws| && index == DrawIndex(draws[k], |texts|)
        invariant forall j :: 0 <= j < k ==> DrawIndex(draws[j], |texts|) in recent
        invariant exists m :: k <= m < |draws| && DrawIndex(draws[m], |texts|) !in recent
        decreases |draws| - k
      {
        k := k + 1;
        index := DrawIndex(draws[k], |texts|);
      }
      RecordEffect(recent, index);
      recent := Record(recent, index);
      greeting := texts[index];
    }
  }
}
