/** The home page: the completion statistics of the tasks, the tasks due
    today, the greeting for the hour, the completion message and when the
    progress card shows. */
module Home {
  import opened UserTypes
  import Seqs

  /** `completedCount`. */
  function CompletedCount(tasks: seq<Task>): (n: nat)
    ensures n <= |tasks|
  {
    Seqs.Count(tasks, (t: Task) => t.done)
  }

  /** `completedPercentage`, in exact arithmetic: 0 without tasks. */
  function CompletedPercentage(tasks: seq<Task>): (p: real)
    ensures |tasks| == 0 ==> p == 0.0
    ensures |tasks| > 0 ==> p * (|tasks| as real) == 100.0 * (CompletedCount(tasks) as real)
    ensures 0.0 <= p <= 100.0
  {
    if |tasks| == 0 then 0.0
    else
      var c := CompletedCount(tasks) as real;
      var n := |tasks| as real;
      PercentOf(c, n);
      (c / n) * 100.0
  }

  /** The percentage `c` is of `n`, for `0 <= c <= n`. */
  lemma PercentOf(c: real, n: real)
    requires 0.0 <= c <= n && n > 0.0
    ensures 0.0 <= (c / n) * 100.0 <= 100.0
    ensures (c / n) * 100.0 * n == 100.0 * c
  {
    var q := c / n;
    assert q * n == c;
    ScaleCompare(1.0, q, n);
    ScaleCompare(q, 0.0, n);
    assert q * 100.0 * n == 100.0 * (q * n);
  }

  /** The percentage reaches a threshold exactly when the integer
      cross-multiplication says so. */
  lemma PercentageThreshold(tasks: seq<Task>, k: nat)
    requires |tasks| > 0
    ensures CompletedPercentage(tasks) >= k as real <==> CompletedCount(tasks) * 100 >= k * |tasks|
    ensures CompletedPercentage(tasks) == k as real <==> CompletedCount(tasks) * 100 == k * |tasks|
  {
    RatioThreshold(CompletedPercentage(tasks), CompletedCount(tasks), |tasks|, k);
  }

  /** A percentage `p` of `c` out of `n` compared with `k`, by
      cross-multiplication. */
  lemma RatioThreshold(p: real, c: int, n: int, k: int)
    requires n > 0 && p * (n as real) == 100.0 * (c as real)
    ensures p >= k as real <==> c * 100 >= k * n
    ensures p == k as real <==> c * 100 == k * n
  {
    var a, b := c * 100, k * n;
    CastProduct(c, 100);
    CastProduct(k, n);
    ScaleCompare(p, k as real, n as real);
    Transfer(p, k as real, p * (n as real), (k as real) * (n as real), a, b);
  }

  /** Converting to a real commutes with multiplication. */
  lemma CastProduct(x: int, y: int)
    ensures (x * y) as real == (x as real) * (y as real)
  {
  }

  /** Comparisons of `p` and `k` that agree with those of `x` and `y`, the
      reals of `a` and `b`, agree with those of `a` and `b`. */
  lemma Transfer(p: real, k: real, x: real, y: real, a: int, b: int)
    requires p >= k <==> x >= y
    requires p == k <==> x == y
    requires x == a as real && y == b as real
    ensures p >= k <==> a >= b
    ensures p == k <==> a == b
  {
  }

  /** Multiplying by a positive factor keeps the order. */
  lemma ScaleCompare(p: real, k: real, n: real)
    requires n > 0.0
    ensures p >= k <==> p * n >= k * n
    ensures p == k <==> p * n == k * n
  {
    assert p * n - k * n == (p - k) * n;
    if p > k {
      assert (p - k) * n > 0.0;
    } else if p < k {
      assert (k - p) * n > 0.0;
    }
  }

  /** The tasks due today: not done and with a deadline on today's day
      (`dayOf` stands for the day truncation of `setHours(0, 0, 0, 0)`). */
  function DueToday(tasks: seq<Task>, dayOf: int -> int, today: int): (r: seq<Task>)
    ensures forall t :: t in r <==> t in tasks && !t.done && t.deadline.Some? && dayOf(t.deadline.value) == today
    ensures |r| <= |tasks|
  {
    Seqs.Filter(tasks, (t: Task) => t.deadline.Some? && dayOf(t.deadline.value) == today && !t.done)
  }

  /** `timeGreeting` for an hour of the day. */
  function TimeGreeting(hour: nat): (g: string)
    ensures 5 <= hour < 12 ==> g == "Buenos días"
    ensures 12 < hour < 18 ==> g == "Buenas tardes"
    ensures (hour < 5 || hour == 12 || hour >= 18) ==> g == "Buenas noches"
  {
    if hour < 12 && hour >= 5 then "Buenos días"
    else if hour < 18 && hour > 12 then "Buenas tardes"
    else "Buenas noches"
  }

  const NoneDone := "No hay tareas completadas aún. ¡Sigue adelante!"
  const AllDone := "¡Felicidades! ¡Todas las tareas completadas!"
  const AlmostThere := "¡Casi allí!"
  const Halfway := "¡Vas a la mitad! ¡Sigue así!"
  const GoodProgress := "Estás haciendo buen progreso."
  const JustStarting := "Recién estás comenzando."

  /** `taskCompletionText`: the first case of the table that the percentage
      meets. */
  function CompletionText(tasks: seq<Task>): (s: string)
    ensures |tasks| == 0 ==> s == NoneDone
    ensures s in [NoneDone, AllDone, AlmostThere, Halfway, GoodProgress, JustStarting]
  {
    var p := CompletedPercentage(tasks);
    if p == 0.0 then NoneDone
    else if p == 100.0 then AllDone
    else if p >= 75.0 then AlmostThere
    else if p >= 50.0 then Halfway
    else if p >= 25.0 then GoodProgress
    else JustStarting
  }

  /** The message, stated on counts: none done (or no tasks), all done, then
      the thresholds at three quarters, one half and one quarter. */
  lemma CompletionTextByCounts(tasks: seq<Task>)
    ensures var c, n, s := CompletedCount(tasks), |tasks|, CompletionText(tasks);
            (s == NoneDone <==> c == 0) &&
            (s == AllDone <==> n > 0 && c == n) &&
            (s == AlmostThere <==> 0 < c < n && c * 100 >= 75 * n) &&
            (s == Halfway <==> 0 < c && c * 100 < 75 * n && c * 100 >= 50 * n) &&
            (s == GoodProgress <==> 0 < c && c * 100 < 50 * n && c * 100 >= 25 * n) &&
            (s == JustStarting <==> 0 < c && c * 100 < 25 * n)
  {
    var c, n := CompletedCount(tasks), |tasks|;
    if n > 0 {
      PercentageThreshold(tasks, 0);
      PercentageThreshold(tasks, 100);
      PercentageThreshold(tasks, 75);
      PercentageThreshold(tasks, 50);
      PercentageThreshold(tasks, 25);
    }
  }

  /** The progress card shows when there are tasks and the setting is on. */
  predicate ShowsProgressCard(user: User) {
    |user.tasks| > 0 && user.settings.showProgressBar
  }

  /** Hiding the card through its close button turns the setting off, and
      with it the card. */
  function UpdateShowProgressBar(user: User, value: bool): (u: User)
    ensures u == user.(settings := user.settings.(showProgressBar := value))
    ensures !value ==> !ShowsProgressCard(u)
    ensures value ==> (ShowsProgressCard(u) <==> |user.tasks| > 0)
  {
    user.(settings := user.settings.(showProgressBar := value))
  }
}
