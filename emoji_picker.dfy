/** The emoji picker: the "unified" hexadecimal name of an emoji, the six
    most used emojis, the emoji chosen from a language-model answer, and the
    rule that enables the button asking for one. */
module EmojiPicker {
  import opened Wrappers
  import Seqs
  import Text
  import Numerals
  import Sorting

  // ---------------------------------------------------------------------
  // emojiToUnified
  // ---------------------------------------------------------------------

  /** The lower-case hexadecimal code point of every character. */
  function HexSegments(emoji: string): (segs: seq<string>)
    ensures |segs| == |emoji|
  {
    seq(|emoji|, i requires 0 <= i < |emoji| => Numerals.ToString(emoji[i] as int, 16))
  }

  /** `emojiToUnified`: the code points in hexadecimal, upper-cased, joined
      by `-`, and the whole lower-cased. */
  function EmojiToUnified(emoji: string): (u: string)
    ensures u == Text.Join(HexSegments(emoji), '-')
  {
    var upper := seq(|emoji|, i requires 0 <= i < |emoji| => Text.Upper(Numerals.ToString(emoji[i] as int, 16)));
    HexCaseRoundTrip(emoji, upper);
    LowerJoin(upper);
    Text.Lower(Text.Join(upper, '-'))
  }

  /** Lower-casing the upper-cased hexadecimal segments gives them back. */
  lemma HexCaseRoundTrip(emoji: string, upper: seq<string>)
    requires |upper| == |emoji|
    requires forall i :: 0 <= i < |emoji| ==> upper[i] == Text.Upper(Numerals.ToString(emoji[i] as int, 16))
    ensures seq(|upper|, i requires 0 <= i < |upper| => Text.Lower(upper[i])) == HexSegments(emoji)
  {
    forall i | 0 <= i < |emoji|
      ensures Text.Lower(upper[i]) == HexSegments(emoji)[i]
    {
      var h := Numerals.ToString(emoji[i] as int, 16);
      forall k | 0 <= k < |h| ensures Text.LowerChar(Text.UpperChar(h[k])) == h[k] {
        assert Numerals.DigitValue(h[k], 16) < 16;
      }
    }
  }

  /** Lower-casing a `-`-joined string lower-cases every part. */
  lemma {:induction false} LowerJoin(parts: seq<string>)
    ensures Text.Lower(Text.Join(parts, '-')) ==
            Text.Join(seq(|parts|, i requires 0 <= i < |parts| => Text.Lower(parts[i])), '-')
  {
    var lowered := seq(|parts|, i requires 0 <= i < |parts| => Text.Lower(parts[i]));
    if |parts| > 1 {
      LowerJoin(parts[1..]);
      assert lowered[1..] == seq(|parts| - 1, i requires 0 <= i < |parts| - 1 => Text.Lower(parts[1..][i]));
      LowerConcat(parts[0] + ['-'], Text.Join(parts[1..], '-'));
      LowerConcat(parts[0], ['-']);
    }
  }

  lemma LowerConcat(a: string, b: string)
    ensures Text.Lower(a + b) == Text.Lower(a) + Text.Lower(b)
  {
  }

  /** One segment per code point: splitting the unified name at `-` gives
      the hexadecimal code points back, and each reads back as its code
      point, so different emojis have different names. */
  lemma UnifiedSegments(emoji: string)
    requires |emoji| >= 1
    ensures Text.Split(EmojiToUnified(emoji), '-') == HexSegments(emoji)
    ensures forall i :: 0 <= i < |emoji| ==>
              Numerals.AllDigits(HexSegments(emoji)[i], 16) &&
              Numerals.Parse(HexSegments(emoji)[i], 16) == emoji[i] as int
  {
    var segs := HexSegments(emoji);
    forall k | 0 <= k < |segs| ensures '-' !in segs[k] {
      Numerals.ToStringAlphabet(emoji[k] as int, 16);
    }
    Text.SplitJoin(segs, '-');
    forall i | 0 <= i < |emoji| ensures Numerals.Parse(segs[i], 16) == emoji[i] as int {
      Numerals.ParseToString(emoji[i] as int, 16);
    }
  }

  /** Different non-empty emojis have different unified names. */
  lemma UnifiedInjective(a: string, b: string)
    requires |a| >= 1 && |b| >= 1
    requires EmojiToUnified(a) == EmojiToUnified(b)
    ensures a == b
  {
    UnifiedSegments(a);
    UnifiedSegments(b);
    forall i | 0 <= i < |a| ensures a[i] == b[i] {
      assert a[i] as int == Numerals.Parse(HexSegments(a)[i], 16) == b[i] as int;
    }
  }

  // ---------------------------------------------------------------------
  // getFrequentlyUsedEmojis
  // ---------------------------------------------------------------------

  /** An entry of the picker's stored suggestions. */
  datatype EmojiItem = EmojiItem(unified: string, original: string, count: int)

  /** The order of `(a, b) => b.count - a.count`: higher counts first. */
  predicate ByCountDesc(a: EmojiItem, b: EmojiItem) {
    b.count - a.count <= 0
  }

  lemma ByCountDescTotal()
    ensures Sorting.TotalPreorder(ByCountDesc)
  {
  }

  /** The first six of the sorted items (`slice(0, 6)`). */
  function TopSix(items: seq<EmojiItem>): (top: seq<EmojiItem>)
    ensures |top| <= 6
  {
    var sorted := Sorting.Sort(items, ByCountDesc);
    sorted[..if |sorted| < 6 then |sorted| else 6]
  }

  function Unifieds(items: seq<EmojiItem>): (names: seq<string>)
    ensures |names| == |items|
    ensures forall i :: 0 <= i < |items| ==> names[i] == items[i].unified
  {
    seq(|items|, i requires 0 <= i < |items| => items[i].unified)
  }

  /** The top six are stored items, at most six, in non-increasing count,
      and no item left out has a higher count than one taken. */
  lemma TopSixFacts(items: seq<EmojiItem>)
    ensures multiset(TopSix(items)) <= multiset(items)
    ensures |TopSix(items)| == if |items| < 6 then |items| else 6
    ensures forall i, j :: 0 <= i < j < |TopSix(items)| ==> TopSix(items)[i].count >= TopSix(items)[j].count
    ensures forall x, y :: x in TopSix(items) && y in multiset(items) - multiset(TopSix(items)) ==> x.count >= y.count
  {
    var sorted := Sorting.Sort(items, ByCountDesc);
    var n := if |sorted| < 6 then |sorted| else 6;
    ByCountDescTotal();
    Sorting.SortPermutation(items, ByCountDesc);
    Sorting.SortSorted(items, ByCountDesc);
    assert sorted == sorted[..n] + sorted[n..];
    assert multiset(sorted) == multiset(sorted[..n]) + multiset(sorted[n..]);
    forall x, y | x in sorted[..n] && y in multiset(items) - multiset(sorted[..n])
      ensures x.count >= y.count
    {
      var i :| 0 <= i < n && sorted[..n][i] == x;
      assert y in multiset(sorted[n..]);
      var j :| 0 <= j < |sorted[n..]| && sorted[n..][j] == y;
      assert ByCountDesc(sorted[i], sorted[n + j]);
    }
  }

  /** `getFrequentlyUsedEmojis` on the parsed stored list (`None` when
      nothing is stored): the stored list is sorted in place and the unified
      names of its first six entries returned. */
  method FrequentlyUsedEmojis(stored: Option<seq<EmojiItem>>) returns (names: seq<string>)
    ensures stored.None? ==> names == []
    ensures stored.Some? ==> names == Unifieds(TopSix(stored.value))
  {
    if stored.None? {
      return [];
    }
    var a := new EmojiItem[|stored.value|](i requires 0 <= i < |stored.value| => stored.value[i]);
    assert a[..] == stored.value;
    Sorting.SortInPlace(a, ByCountDesc);
    var n := if a.Length < 6 then a.Length else 6;
    names := Unifieds(a[..n]);
    assert a[..n] == a[..][..n];
  }

  // ---------------------------------------------------------------------
  // The emoji from a language-model answer
  // ---------------------------------------------------------------------

  /** `emojiMap`: emojis rendered without their presentation selector are
      replaced by the selector form (and the peace symbol by the V sign). */
  const EmojiMap: map<string, string> := map[
    "\U{262E}" := "\U{270C}\U{FE0F}",
    "\U{1F399}" := "\U{1F399}\U{FE0F}",
    "\U{1F5E3}" := "\U{1F5E3}\U{FE0F}",
    "\U{2708}" := "\U{2708}\U{FE0F}",
    "\U{1F37D}" := "\U{1F37D}\U{FE0F}",
    "\U{2328}" := "\U{2328}\U{FE0F}",
    "\U{1F5B1}" := "\U{1F5B1}\U{FE0F}"
  ]

  /** The map substitution: a key becomes its value, anything else is left
      alone. */
  function Substitute(emoji: string): (r: string)
    ensures emoji in EmojiMap ==> r == EmojiMap[emoji]
    ensures emoji !in EmojiMap ==> r == emoji
  {
    if emoji in EmojiMap then EmojiMap[emoji] else emoji
  }

  /** What the model answered: the emojis the pattern extracted from the
      trimmed, asterisk-free answer, and whether the pattern then accepts
      the substituted emoji; `None` when the prompt failed. */
  datatype Answer = Answer(extracted: seq<string>, patternAccepts: bool)

  /** The emoji the picker ends with after asking (`None` leaves no emoji):
      the first distinct extracted emoji, substituted, with `:` removed,
      in unified form, when the pattern accepts it. */
  function EmojiFromAnswer(answer: Option<Answer>): (current: Option<string>)
    ensures answer.None? || answer.value.extracted == [] || !answer.value.patternAccepts ==> current.None?
  {
    if answer.None? then None
    else
      var unique := Seqs.Dedup(answer.value.extracted);
      if |unique| == 0 then None
      else
        var response := Substitute(unique[0]);
        var unified := EmojiToUnified(Text.RemoveAll(response, c => c == ':'));
        if answer.value.patternAccepts then Some(unified) else None
  }

  /** With some extracted emoji and an accepting pattern the picker takes
      the unified name of the first extracted emoji, after substitution. */
  lemma EmojiFromAnswerFirst(answer: Answer)
    requires |answer.extracted| > 0 && answer.patternAccepts
    ensures EmojiFromAnswer(Some(answer)) ==
            Some(EmojiToUnified(Text.RemoveAll(Substitute(answer.extracted[0]), c => c == ':')))
  {
  }

  /** The button asking for an emoji is disabled for a name of fewer than
      three characters or over the maximum of its kind. */
  function AskButtonDisabled(name: string, isTask: bool, maxTaskName: nat, maxCategoryName: nat): (b: bool)
    ensures !b <==> 3 <= |name| && |name| <= (if isTask then maxTaskName else maxCategoryName)
  {
    |name| < 3 || (if isTask then |name| > maxTaskName else |name| > maxCategoryName)
  }

  // ---------------------------------------------------------------------
  // Picker state
  // ---------------------------------------------------------------------

  /** Whether the picker is open and the current emoji (`null` is `None`). */
  datatype PickerState = PickerState(showPicker: bool, current: Option<string>)

  /** `handleEmojiClick`: the picker toggles and the clicked emoji becomes
      current. */
  function EmojiClick(st: PickerState, unified: string): (r: PickerState)
    ensures r.showPicker == !st.showPicker && r.current == Some(unified)
  {
    PickerState(!st.showPicker, Some(unified))
  }

  /** `handleRemoveEmoji`: the picker toggles and no emoji is current. */
  function RemoveEmoji(st: PickerState): (r: PickerState)
    ensures r.showPicker == !st.showPicker && r.current.None?
  {
    PickerState(!st.showPicker, None)
  }

  /** The parent setting the emoji to `""` clears the current emoji. */
  function EmojiPropChanged(st: PickerState, emoji: Option<string>): (r: PickerState)
    ensures emoji == Some("") ==> r == st.(current := None)
    ensures emoji != Some("") ==> r == st
  {
    if emoji == Some("") then st.(current := None) else st
  }

  /** Clicking then removing leaves the picker as it was open or closed and
      with no emoji. */
  lemma ClickThenRemove(st: PickerState, unified: string)
    ensures RemoveEmoji(EmojiClick(st, unified)) == st.(current := None)
  {
  }
}
