/** The read-aloud settings tab: the list of voices (loaded, de-duplicated
    and ordered with the user's language first), the flag emoji of a
    voice's region, the region's display name, choosing a voice, and the
    mute button with the volume it remembers. */
module ReadAloud {
  import opened Wrappers
  import opened UserTypes
  import Seqs
  import Text
  import Numerals
  import Sorting

  /** A speech-synthesis voice, with the five properties the page reads. */
  datatype Voice = Voice(lang: string, isDefault: bool, localService: bool, name: string, voiceURI: string)

  // ---------------------------------------------------------------------
  // Loading, de-duplicating and ordering voices
  // ---------------------------------------------------------------------

  /** `getAvailableVoices`, with the browser's `getVoices()` result as
      `voices` (`None` when it is nullish) and `hasSynthesis` saying whether
      the browser offers speech synthesis: the voices are copied one by one
      into a fresh list. */
  method GetAvailableVoices(hasSynthesis: bool, voices: Option<seq<Voice>>) returns (list: seq<Voice>)
    ensures !hasSynthesis ==> list == []
    ensures hasSynthesis ==> list == voices.GetOr([])
  {
    if !hasSynthesis {
      return [];
    }
    var all := voices.GetOr([]);
    list := [];
    var i := 0;
    while i < |all|
      invariant 0 <= i <= |all|
      invariant list == all[..i]
    {
      list := list + [all[i]];
      i := i + 1;
      assert all[..i] == all[..i - 1] + [all[i - 1]];
    }
    assert all[..|all|] == all;
  }

  /** The five properties duplicates agree on. */
  function VoiceKey(v: Voice): (string, bool, bool, string, string) {
    (v.lang, v.isDefault, v.localService, v.name, v.voiceURI)
  }

  /** The voice's language starts with the browser's language. */
  predicate FromCountry(v: Voice, userLang: string) {
    Text.StartsWith(v.lang, userLang)
  }

  /** The comparator of the voice list: voices of the user's language come
      first, and otherwise `langLeq` (standing for `localeCompare` on `lang`)
      decides. */
  function VoiceLeq(userLang: string, langLeq: (string, string) -> bool): (leq: (Voice, Voice) -> bool)
    ensures forall a, b :: FromCountry(a, userLang) && !FromCountry(b, userLang) ==> leq(a, b) && !leq(b, a)
    ensures forall a, b :: FromCountry(a, userLang) == FromCountry(b, userLang) ==> leq(a, b) == langLeq(a.lang, b.lang)
  {
    (a: Voice, b: Voice) =>
      var aFrom := FromCountry(a, userLang);
      var bFrom := FromCountry(b, userLang);
      if aFrom && !bFrom then true
      else if !aFrom && bFrom then false
      else langLeq(a.lang, b.lang)
  }

  /** The comparator is a total preorder when `localeCompare` is one. */
  lemma VoiceLeqTotal(userLang: string, langLeq: (string, string) -> bool)
    requires Sorting.TotalPreorder(langLeq)
    ensures Sorting.TotalPreorder(VoiceLeq(userLang, langLeq))
  {
    var leq := VoiceLeq(userLang, langLeq);
    forall a, b, c | leq(a, b) && leq(b, c) ensures leq(a, c) {
      if FromCountry(a, userLang) == FromCountry(b, userLang) == FromCountry(c, userLang) {
        assert langLeq(a.lang, b.lang) && langLeq(b.lang, c.lang);
      }
    }
    forall a, b ensures leq(a, b) || leq(b, a) {
      if FromCountry(a, userLang) == FromCountry(b, userLang) {
        assert langLeq(a.lang, b.lang) || langLeq(b.lang, a.lang);
      }
    }
  }

  /** `filteredVoices`: the first voice of every key, then sorted. */
  function FilteredVoices(available: seq<Voice>, userLang: string, langLeq: (string, string) -> bool): (r: seq<Voice>)
    ensures forall v :: v in r ==> v in available
  {
    Sorting.SortMembers(Seqs.DedupBy(available, VoiceKey), VoiceLeq(userLang, langLeq));
    Sorting.Sort(Seqs.DedupBy(available, VoiceKey), VoiceLeq(userLang, langLeq))
  }

  /** The list holds available voices only, no two with the same key, a
      voice for every key that is available, and every voice of the user's
      language before every other voice. */
  lemma FilteredVoicesFacts(available: seq<Voice>, userLang: string, langLeq: (string, string) -> bool)
    requires Sorting.TotalPreorder(langLeq)
    ensures var r := FilteredVoices(available, userLang, langLeq);
            (forall v :: v in r ==> v in available) &&
            (forall i, j :: 0 <= i < j < |r| ==> VoiceKey(r[i]) != VoiceKey(r[j])) &&
            (forall v :: v in available ==> exists w :: w in r && VoiceKey(w) == VoiceKey(v)) &&
            (forall i, j :: 0 <= i < j < |r| && FromCountry(r[j], userLang) ==> FromCountry(r[i], userLang))
  {
    var d := Seqs.DedupBy(available, VoiceKey);
    var leq := VoiceLeq(userLang, langLeq);
    var r := Sorting.Sort(d, leq);
    Sorting.SortPermutation(d, leq);
    Sorting.SortMembers(d, leq);
    VoiceLeqTotal(userLang, langLeq);
    Sorting.SortSorted(d, leq);
    assert Seqs.NoDup(d) by {
      forall i, j | 0 <= i < j < |d| ensures d[i] != d[j] {
        assert VoiceKey(d[i]) != VoiceKey(d[j]);
      }
    }
    Seqs.NoDupPermutation(d, r);
    forall i, j | 0 <= i < j < |r| ensures VoiceKey(r[i]) != VoiceKey(r[j]) {
      var v, w := r[i], r[j];
      assert v in d && w in d;
      assert v != w;
    }
    forall v | v in available ensures exists w :: w in r && VoiceKey(w) == VoiceKey(v) {
      var i :| 0 <= i < |available| && available[i] == v;
      assert Seqs.HasKey(d, VoiceKey(available[i]), VoiceKey);
      var j :| 0 <= j < |d| && VoiceKey(d[j]) == VoiceKey(v);
      assert d[j] in r;
    }
    forall i, j | 0 <= i < j < |r| && FromCountry(r[j], userLang) ensures FromCountry(r[i], userLang) {
      assert leq(r[i], r[j]);
    }
  }

  // ---------------------------------------------------------------------
  // Flags and regions
  // ---------------------------------------------------------------------

  /** The region code of a language tag: its last `-` part, upper-cased and
      cut to two characters. */
  function Region(countryCode: string): (region: string)
    ensures |region| <= 2
  {
    var parts := Text.Split(countryCode, '-');
    var last := Text.Upper(parts[|parts| - 1]);
    last[..if |last| < 2 then |last| else 2]
  }

  /** The regional-indicator code point of a region letter. */
  function IndicatorPoint(c: char): (p: nat)
    ensures p == c as int - 0x41 + 0x1F1E6
  {
    c as int - 0x41 + 0x1F1E6
  }

  /** `getFlagUnicodes`: the two regional indicators of the region in
      hexadecimal joined by `-`; `None` where the page throws, when the
      region is not two characters long. */
  function FlagUnicodes(countryCode: string): (r: Option<string>)
    ensures r.Some? <==> |Region(countryCode)| == 2
    ensures r.Some? ==> var region := Region(countryCode);
              r.value == Numerals.ToString(IndicatorPoint(region[0]), 16) + "-" +
                         Numerals.ToString(IndicatorPoint(region[1]), 16)
  {
    var region := Region(countryCode);
    if |region| != 2 then None
    else
      Some(Numerals.ToString(IndicatorPoint(region[0]), 16) + "-" + Numerals.ToString(IndicatorPoint(region[1]), 16))
  }

  /** A flag is two hexadecimal parts that read back as the indicators of
      the two region letters. */
  lemma FlagUnicodesInverse(countryCode: string)
    requires FlagUnicodes(countryCode).Some?
    ensures var region := Region(countryCode);
            var parts := Text.Split(FlagUnicodes(countryCode).value, '-');
            |parts| == 2 &&
            Numerals.AllDigits(parts[0], 16) && Numerals.AllDigits(parts[1], 16) &&
            Numerals.Parse(parts[0], 16) == IndicatorPoint(region[0]) &&
            Numerals.Parse(parts[1], 16) == IndicatorPoint(region[1])
  {
    var region := Region(countryCode);
    var a := Numerals.ToString(IndicatorPoint(region[0]), 16);
    var b := Numerals.ToString(IndicatorPoint(region[1]), 16);
    Numerals.ToStringAlphabet(IndicatorPoint(region[0]), 16);
    Numerals.ToStringAlphabet(IndicatorPoint(region[1]), 16);
    assert Text.Join([a, b], '-') == a + "-" + b;
    Text.SplitJoin([a, b], '-');
    Numerals.ParseToString(IndicatorPoint(region[0]), 16);
    Numerals.ParseToString(IndicatorPoint(region[1]), 16);
  }

  /** The last part of `pl-PL` is `PL`, and a tag without a two-letter last
      part such as `x` has no flag. */
  lemma RegionExamples()
    ensures Region("pl-PL") == "PL"
    ensures FlagUnicodes("x").None?
  {
    assert Text.IndexOf("pl-PL", '-') == 2;
    assert "pl-PL"[..2] == "pl" && "pl-PL"[3..] == "PL";
    assert Text.IndexOf("PL", '-') == -1;
    assert Text.Split("PL", '-') == ["PL"];
    assert Text.Split("pl-PL", '-') == ["pl", "PL"];
    assert Text.Upper("PL") == "PL";
    assert Text.IndexOf("x", '-') == -1;
    assert Text.Split("x", '-') == ["x"];
  }

  /** `A` is the first regional indicator, U+1F1E6. */
  lemma IndicatorOfA()
    ensures IndicatorPoint('A') == 0x1F1E6
  {
  }

  /** `getLanguageRegion`, with `displayName(lang, code)` standing for
      `Intl.DisplayNames` (`None` where it throws): the region's name for a
      tag with a region, the tag itself otherwise or on failure, and `""`
      for an empty tag. */
  function LanguageRegion(lang: string, displayName: (string, string) -> Option<string>): (r: string)
    ensures lang == "" ==> r == ""
    ensures lang != "" && '-' !in lang ==> r == lang
    ensures lang != "" && '-' in lang ==>
              var parts := Text.Split(lang, '-');
              r == displayName(lang, parts[1]).GetOr(lang)
  {
    if lang == "" then ""
    else
      var parts := Text.Split(lang, '-');
      assert '-' !in lang ==> |parts| == 1;
      assert '-' in lang ==> |parts| > 1;
      if |parts| > 1 then displayName(lang, parts[1]).GetOr(lang) else lang
  }

  // ---------------------------------------------------------------------
  // Choosing a voice and the volume
  // ---------------------------------------------------------------------

  /** `handleVoiceChange`: a non-empty voice becomes the setting; an empty
      one changes nothing. */
  function VoiceChange(user: User, voice: string): (u: User)
    ensures voice == "" ==> u == user
    ensures voice != "" ==> u == user.(settings := user.settings.(voice := voice))
  {
    if voice != "" then user.(settings := user.settings.(voice := voice)) else user
  }

  /** `handleVoiceVolCommitChange`: the slider's value becomes the stored
      volume. */
  function VoiceVolumeCommit(user: User, value: real): (u: User)
    ensures u.settings.voiceVolume == value
    ensures u == user.(settings := user.settings.(voiceVolume := value))
  {
    user.(settings := user.settings.(voiceVolume := value))
  }

  /** The tab's volume state: the current volume and the one remembered by
      the last mute click. */
  datatype VolumeState = VolumeState(voiceVolume: real, prevVoiceVol: real)

  /** `handleMuteClick`: a sounding volume is muted, a muted one goes back to
      the remembered volume, or to the default when that is zero too; the
      old volume is remembered. */
  function MuteClick(st: VolumeState, defaultVolume: real): (r: VolumeState)
    ensures r.prevVoiceVol == st.voiceVolume
    ensures st.voiceVolume != 0.0 ==> r.voiceVolume == 0.0
    ensures st.voiceVolume == 0.0 && st.prevVoiceVol != 0.0 ==> r.voiceVolume == st.prevVoiceVol
    ensures st.voiceVolume == 0.0 && st.prevVoiceVol == 0.0 ==> r.voiceVolume == defaultVolume
  {
    var vol := st.voiceVolume;
    var newVolume := if vol == 0.0 then (if st.prevVoiceVol != 0.0 then st.prevVoiceVol else defaultVolume) else 0.0;
    VolumeState(newVolume, vol)
  }

  /** The stored setting follows the state's new volume. */
  function MuteClickUser(user: User, st: VolumeState, defaultVolume: real): (u: User)
    ensures u.settings.voiceVolume == MuteClick(st, defaultVolume).voiceVolume
    ensures u == user.(settings := user.settings.(voiceVolume := u.settings.voiceVolume))
  {
    VoiceVolumeCommit(user, MuteClick(st, defaultVolume).voiceVolume)
  }

  /** Muting and unmuting gives back the volume that was sounding, and a
      second pair of clicks repeats the first. */
  lemma MuteUnmute(st: VolumeState, defaultVolume: real)
    requires st.voiceVolume != 0.0
    ensures MuteClick(MuteClick(st, defaultVolume), defaultVolume) == VolumeState(st.voiceVolume, 0.0)
    ensures var twice := MuteClick(MuteClick(st, defaultVolume), defaultVolume);
            MuteClick(MuteClick(twice, defaultVolume), defaultVolume) == twice
  {
  }

  /** Unmuting always gives a sounding volume when the default sounds. */
  lemma UnmuteSounds(st: VolumeState, defaultVolume: real)
    requires st.voiceVolume == 0.0 && defaultVolume != 0.0
    ensures MuteClick(st, defaultVolume).voiceVolume != 0.0
  {
  }
}
