/** The settings dialog's hash routing: every tab has a slug, the location
    hash `#settings/<slug>` selects a tab, other hashes close the dialog,
    and opening the dialog without a settings hash goes to the first tab. */
module SettingsDialog {
  import opened Wrappers
  import Text

  /** The labels of `settingsTabs`, in order. */
  const TabLabels: seq<string> := ["Apariencia", "General", "Emoji", ReadAloudLabel, "Atajos", "Acerca de"]

  const ReadAloudLabel: string := "Leer en Voz Alta"

  /** `createTabSlug`: the label with all white space removed. */
  function CreateTabSlug(tabLabel: string): (slug: string)
    ensures |slug| <= |tabLabel|
  {
    Text.RemoveWhitespace(tabLabel)
  }

  /** A slug has no white space, and a label without white space is its own
      slug. */
  lemma SlugFacts(tabLabel: string)
    ensures forall i :: 0 <= i < |CreateTabSlug(tabLabel)| ==> !Text.IsWhitespace(CreateTabSlug(tabLabel)[i])
    ensures (forall i :: 0 <= i < |tabLabel| ==> !Text.IsWhitespace(tabLabel[i])) ==> CreateTabSlug(tabLabel) == tabLabel
  {
    Text.RemoveWhitespaceClean(tabLabel);
    if forall i :: 0 <= i < |tabLabel| ==> !Text.IsWhitespace(tabLabel[i]) {
      Text.RemoveWhitespaceNone(tabLabel);
    }
  }

  predicate IsLetter(c: char) {
    'A' <= c <= 'Z' || 'a' <= c <= 'z'
  }

  /** ASCII letters only. */
  predicate Letters(s: string) {
    forall i :: 0 <= i < |s| ==> IsLetter(s[i])
  }

  /** A label made of letters is its own slug. */
  lemma SlugOfLetters(s: string)
    requires Letters(s)
    ensures CreateTabSlug(s) == s
  {
    Text.RemoveWhitespaceNone(s);
  }

  /** A space between two words is dropped from the slug. */
  lemma SpaceDropped(a: string, rest: string)
    requires Letters(a)
    ensures CreateTabSlug(a + " " + rest) == a + CreateTabSlug(rest)
  {
    assert Text.RemoveWhitespace(a) == a by {
      Text.RemoveWhitespaceNone(a);
    }
    assert Text.RemoveWhitespace(" ") == [] by {
      assert " "[1..] == [];
    }
    Text.RemoveWhitespaceAppend(a, " ");
    Text.RemoveWhitespaceAppend(a + " ", rest);
  }

  /** `Leer en Voz Alta` becomes `LeerenVozAlta`. */
  lemma ReadAloudSlug()
    ensures CreateTabSlug(ReadAloudLabel) == "LeerenVozAlta"
  {
    assert ReadAloudLabel == "Leer" + " " + ("en" + " " + ("Voz" + " " + "Alta"));
    SlugOfLetters("Alta");
    SpaceDropped("Voz", "Alta");
    SpaceDropped("en", "Voz" + " " + "Alta");
    SpaceDropped("Leer", "en" + " " + ("Voz" + " " + "Alta"));
    assert "Leer" + ("en" + ("Voz" + "Alta")) == "LeerenVozAlta";
  }

  /** `Acerca de` becomes `Acercade`. */
  lemma AboutSlug()
    ensures CreateTabSlug("Acerca de") == "Acercade"
  {
    SlugOfLetters("de");
    SpaceDropped("Acerca", "de");
    assert "Acerca" + " " + "de" == "Acerca de";
  }

  /** The slug of every tab. */
  function Slugs(labels: seq<string>): (slugs: seq<string>)
    ensures |slugs| == |labels|
    ensures forall i :: 0 <= i < |labels| ==> slugs[i] == CreateTabSlug(labels[i])
  {
    seq(|labels|, i requires 0 <= i < |labels| => CreateTabSlug(labels[i]))
  }

  /** The slugs of the six tabs. */
  const TabSlugValues: seq<string> := ["Apariencia", "General", "Emoji", "LeerenVozAlta", "Atajos", "Acercade"]

  lemma TabSlugs()
    ensures Slugs(TabLabels) == TabSlugValues
  {
    var s := Slugs(TabLabels);
    FirstTabSlugs();
    LastTabSlugs();
    assert forall i :: 0 <= i < 6 ==> s[i] == TabSlugValues[i];
  }

  lemma FirstTabSlugs()
    ensures CreateTabSlug(TabLabels[0]) == TabSlugValues[0]
    ensures CreateTabSlug(TabLabels[1]) == TabSlugValues[1]
    ensures CreateTabSlug(TabLabels[2]) == TabSlugValues[2]
  {
    SlugOfLetters("Apariencia");
    SlugOfLetters("General");
    SlugOfLetters("Emoji");
  }

  lemma LastTabSlugs()
    ensures CreateTabSlug(TabLabels[3]) == TabSlugValues[3]
    ensures CreateTabSlug(TabLabels[4]) == TabSlugValues[4]
    ensures CreateTabSlug(TabLabels[5]) == TabSlugValues[5]
  {
    ReadAloudSlug();
    SlugOfLetters("Atajos");
    AboutSlug();
  }

  /** Slugs the hash routing can tell apart: non-empty, made of letters and
      pairwise different. */
  predicate GoodSlugs(slugs: seq<string>) {
    (forall i :: 0 <= i < |slugs| ==> |slugs[i]| > 0 && Letters(slugs[i])) &&
    (forall i, j :: 0 <= i < j < |slugs| ==> slugs[i] != slugs[j])
  }

  /** The six slugs are good: their lengths tell them apart. */
  lemma TabSlugValuesGood()
    ensures GoodSlugs(TabSlugValues)
  {
    var v := TabSlugValues;
    assert Letters(v[0]) && Letters(v[1]) && Letters(v[2]);
    assert Letters(v[3]) && Letters(v[4]) && Letters(v[5]);
    assert |v[0]| == 10 && |v[1]| == 7 && |v[2]| == 5 && |v[3]| == 13 && |v[4]| == 6 && |v[5]| == 8;
  }

  /** The tabs' slugs are good. */
  lemma TabSlugsGood()
    ensures GoodSlugs(Slugs(TabLabels))
  {
    TabSlugs();
    TabSlugValuesGood();
  }

  /** `settingsTabs.findIndex(tab => createTabSlug(tab.label) === slug)`,
      on the tabs' slugs. */
  function FindTab(slugs: seq<string>, slug: string): (r: int)
    ensures -1 <= r < |slugs|
    ensures r >= 0 ==> slugs[r] == slug && slug !in slugs[..r]
    ensures r == -1 <==> slug !in slugs
  {
    if |slugs| == 0 then -1
    else if slugs[0] == slug then 0
    else
      var k := FindTab(slugs[1..], slug);
      if k == -1 then -1
      else
        assert slugs[..k + 1] == [slugs[0]] + slugs[1..][..k];
        k + 1
  }

  /** The characters of `\w`. */
  predicate IsWordChar(c: char) {
    'a' <= c <= 'z' || 'A' <= c <= 'Z' || '0' <= c <= '9' || c == '_'
  }

  /** The characters `.` does not match. */
  predicate IsLineTerminator(c: char) {
    c == '\n' || c == '\r' || c == '\U{2028}' || c == '\U{2029}'
  }

  /** The longest prefix of word characters (what `(\w+)` captures). */
  function LeadingWord(s: string): (w: string)
    ensures Text.StartsWith(s, w)
    ensures forall i :: 0 <= i < |w| ==> IsWordChar(w[i])
    ensures |w| < |s| ==> !IsWordChar(s[|w|])
  {
    if |s| > 0 && IsWordChar(s[0]) then [s[0]] + LeadingWord(s[1..]) else []
  }

  /** `isSettingsHash`: `/^#settings(\/.*)?$/`. */
  predicate IsSettingsHash(hash: string) {
    hash == "#settings" ||
    (Text.StartsWith(hash, "#settings/") && forall i :: 10 <= i < |hash| ==> !IsLineTerminator(hash[i]))
  }

  /** The hash of a tab, as `navigateToTab` and `replaceWithTab` write it. */
  function TabHash(labels: seq<string>, i: nat): (h: string)
    requires i < |labels|
    ensures Text.StartsWith(h, "#settings/") && h[10..] == CreateTabSlug(labels[i])
  {
    "#settings/" + CreateTabSlug(labels[i])
  }

  /** What a hash change does to the dialog. */
  datatype HashOutcome =
    | Close
    | Select(tab: nat, rewrite: bool, warning: Option<string>)
    | Ignore

  /** `handleHashChange` on a hash, for the tabs `labels`: close on a
      non-settings hash; the first tab, rewriting the hash, for `#settings`
      and `#settings/`; the first tab whose slug is the leading word after
      `/`, or the first tab with a warning and a rewrite when no tab has that
      slug; nothing without a leading word. */
  function ResolveHash(labels: seq<string>, hash: string): (o: HashOutcome)
    ensures o.Close? <==> !IsSettingsHash(hash)
    ensures (hash == "#settings" || hash == "#settings/") ==> o == Select(0, true, None)
    ensures o.Select? && !o.rewrite ==> o.tab < |labels|
  {
    if !IsSettingsHash(hash) then Close
    else if hash == "#settings" || hash == "#settings/" then Select(0, true, None)
    else
      var word := LeadingWord(hash[10..]);
      if word == "" then Ignore
      else
        var index := FindTab(Slugs(labels), word);
        if index != -1 then Select(index, false, None)
        else Select(0, true, Some("Pestaña de configuración inválida: \"" + word +
                                  "\". Redirigiendo a pestaña por defecto."))
  }

  /** A settings hash with a leading word selects the first tab with that
      slug, and an unknown word the first tab with a warning naming it; a
      hash with no word character after `/` changes nothing. */
  lemma ResolveHashWord(labels: seq<string>, hash: string)
    requires Text.StartsWith(hash, "#settings/") && IsSettingsHash(hash) && |hash| > 10
    ensures var word := LeadingWord(hash[10..]);
            var o := ResolveHash(labels, hash);
            (word == "" <==> !IsWordChar(hash[10])) &&
            (word == "" ==> o == Ignore) &&
            (word != "" && word in Slugs(labels) ==>
               o.Select? && !o.rewrite && o.warning.None? && Slugs(labels)[o.tab] == word &&
               word !in Slugs(labels)[..o.tab]) &&
            (word != "" && word !in Slugs(labels) ==>
               o == Select(0, true, Some("Pestaña de configuración inválida: \"" + word +
                                         "\". Redirigiendo a pestaña por defecto.")))
  {
    assert hash != "#settings" && hash != "#settings/";
    var word := LeadingWord(hash[10..]);
    assert hash[10..][0] == hash[10];
    if word != "" {
      var index := FindTab(Slugs(labels), word);
      assert ResolveHash(labels, hash) ==
             if index != -1 then Select(index, false, None)
             else Select(0, true, Some("Pestaña de configuración inválida: \"" + word +
                                       "\". Redirigiendo a pestaña por defecto."));
    }
  }

  /** Every tab's own hash selects that tab and nothing else, as long as the
      slugs are good. */
  lemma TabHashRoundTrip(labels: seq<string>, i: nat)
    requires i < |labels| && GoodSlugs(Slugs(labels))
    ensures ResolveHash(labels, TabHash(labels, i)) == Select(i, false, None)
  {
    var slugs := Slugs(labels);
    var h := TabHash(labels, i);
    var slug := slugs[i];
    assert h[10..] == slug;
    WholeWord(slug);
    assert IsSettingsHash(h) by {
      assert forall k :: 10 <= k < |h| ==> h[k] == slug[k - 10];
    }
    assert h != "#settings" && h != "#settings/";
    assert slug in slugs;
    assert forall j :: 0 <= j < |slugs| && j != i ==> slugs[j] != slug;
    assert FindTab(slugs, slug) == i;
  }

  /** A string of letters is its own leading word. */
  lemma {:induction false} WholeWord(s: string)
    requires Letters(s)
    ensures LeadingWord(s) == s
  {
    if |s| > 0 {
      WholeWord(s[1..]);
      assert [s[0]] + s[1..] == s;
    }
  }

  /** The dialog's routing state: the tabs, whether the dialog is open, the
      selected tab, the location hash and the warnings shown. */
  class SettingsRouter {
    const labels: seq<string>
    var open: bool
    var tabValue: nat
    var hash: string
    var warnings: seq<string>

    ghost predicate Valid()
      reads this
    {
      |labels| > 0 && GoodSlugs(Slugs(labels)) && tabValue < |labels|
    }

    constructor (hash: string)
      ensures labels == TabLabels
      ensures this.hash == hash && !open && tabValue == 0 && warnings == [] && Valid()
    {
      TabSlugsGood();
      labels := TabLabels;
      this.hash := hash;
      open := false;
      tabValue := 0;
      warnings := [];
    }

    /** `handleHashChange`: applies the outcome of the current hash. */
    method HandleHashChange()
      requires Valid()
      modifies this
      ensures var o := ResolveHash(labels, old(hash));
              (o.Close? ==> !open && tabValue == old(tabValue) && hash == old(hash) && warnings == old(warnings)) &&
              (o.Ignore? ==> open == old(open) && tabValue == old(tabValue) && hash == old(hash) && warnings == old(warnings)) &&
              (o.Select? ==>
                 open == old(open) && tabValue == o.tab &&
                 hash == (if o.rewrite then TabHash(labels, o.tab) else old(hash)) &&
                 warnings == old(warnings) + (if o.warning.Some? then [o.warning.value] else []))
      ensures Valid()
    {
      var o := ResolveHash(labels, hash);
      match o
      case Close =>
        open := false;
      case Ignore =>
      case Select(tab, rewrite, warning) =>
        if warning.Some? {
          warnings := warnings + [warning.value];
        }
        if rewrite {
          hash := TabHash(labels, tab);
        }
        tabValue := tab;
    }

    /** `handleHashOpen`: a hash starting with `#settings` opens the dialog. */
    method HandleHashOpen()
      modifies this`open
      ensures open == (old(open) || Text.StartsWith(hash, "#settings"))
    {
      if Text.StartsWith(hash, "#settings") {
        open := true;
      }
    }

    /** `handleTabChange`: the tab is selected and its hash written. */
    method TabChange(newValue: nat)
      requires Valid() && newValue < |labels|
      modifies this`tabValue, this`hash
      ensures tabValue == newValue && hash == TabHash(labels, newValue)
      ensures Valid()
    {
      tabValue := newValue;
      hash := TabHash(labels, newValue);
    }

    /** Opening the dialog: without a settings hash the first tab's hash is
        written. */
    method Opened()
      requires Valid() && open
      modifies this`hash
      ensures IsSettingsHash(old(hash)) ==> hash == old(hash)
      ensures !IsSettingsHash(old(hash)) ==> hash == TabHash(labels, 0)
    {
      if !IsSettingsHash(hash) {
        hash := TabHash(labels, 0);
      }
    }

    /** `handleDialogClose`: the dialog closes and the hash is dropped. */
    method DialogClose()
      modifies this`open, this`hash
      ensures !open && hash == ""
    {
      open := false;
      hash := "";
    }
  }

  /** A tab change followed by the hash change it causes keeps the chosen
      tab and the hash. */
  method TabChangeThenHashChange(r: SettingsRouter, newValue: nat)
    requires r.Valid() && newValue < |r.labels|
    modifies r
    ensures r.Valid() && r.tabValue == newValue && r.hash == TabHash(r.labels, newValue)
    ensures r.open == old(r.open) && r.warnings == old(r.warnings)
  {
    r.TabChange(newValue);
    TabHashRoundTrip(r.labels, newValue);
    r.HandleHashChange();
  }

  /** Opening without a settings hash and the hash change it causes leave
      the dialog open on the first tab. */
  method OpenWithoutHash(r: SettingsRouter)
    requires r.Valid() && r.open && !IsSettingsHash(r.hash)
    modifies r
    ensures r.Valid() && r.open && r.tabValue == 0 && r.hash == TabHash(r.labels, 0)
    ensures r.warnings == old(r.warnings)
  {
    r.Opened();
    TabHashRoundTrip(r.labels, 0);
    r.HandleHashChange();
  }
}
