/** Format ranking (k.mjs:30-86) and the pipeline that normalises and orders all
    formats (k.mjs:227). Keys are integers or NaN (None): `parseInt` of a label
    without digits, or a value `Number` cannot read. */
module Ranking {
  import opened Wrappers
  import opened Numbers
  import opened JsText
  import opened JsValues
  import opened ArraySort
  import FormatMeta

  /** Encoding names, higher index is better (k.mjs:30-46). */
  const AudioEncodingRanks: seq<string> := ["mp4a", "mp3", "vorbis", "aac", "opus", "flac"]
  const VideoEncodingRanks: seq<string> :=
    ["mp4v", "avc1", "Sorenson H.283", "MPEG-4 Visual", "VP8", "VP9", "H.264"]

  /** `names.findIndex(enc => codecs.includes(enc))`, scanning from `from`. */
  function FirstIncluded(codecs: string, names: seq<string>, from: nat): (r: int)
    requires from <= |names|
    ensures r == -1 || (from <= r < |names| && Includes(codecs, names[r]))
    ensures r == -1 ==> forall i :: from <= i < |names| ==> !Includes(codecs, names[i])
    ensures r != -1 ==> forall i :: from <= i < r ==> !Includes(codecs, names[i])
    decreases |names| - from
  {
    if from == |names| then -1
    else if Includes(codecs, names[from]) then from
    else FirstIncluded(codecs, names, from + 1)
  }

  /** `getVideoEncodingRank` / `getAudioEncodingRank`: -1 when `codecs` is missing or
      empty, otherwise the first listed name that occurs in it, or -1. Normalised
      records hold a string or null under `codecs`. */
  function EncodingRank(format: Record, names: seq<string>): (r: int)
    requires forall i :: 0 <= i < |names| ==> names[i] != ""
    ensures -1 <= r < |names|
    ensures !Truthy(Get(format, "codecs")) ==> r == -1
    ensures Get(format, "codecs").Str? && r != -1 ==>
      Includes(Get(format, "codecs").s, names[r]) &&
      forall i :: 0 <= i < r ==> !Includes(Get(format, "codecs").s, names[i])
    ensures Get(format, "codecs").Str? && r == -1 ==>
      forall i :: 0 <= i < |names| ==> !Includes(Get(format, "codecs").s, names[i])
  {
    match Get(format, "codecs")
    case Str(c) =>
      if c == "" then
        assert forall i :: 0 <= i < |names| ==> !OccursAt(c, names[i], 0);
        -1
      else FirstIncluded(c, names, 0)
    case _ => -1
  }

  /** `parseInt(format.qualityLabel)`. */
  function QualityKey(format: Record): Option<int> {
    ParseInt(ToJsString(Get(format, "qualityLabel")))
  }

  /** `getVideoBitrate`: `format.bitrate || 0`. */
  function VideoBitrateKey(format: Record): Option<int> {
    NumberOrZero(Get(format, "bitrate"))
  }

  function VideoEncodingKey(format: Record): Option<int> {
    Some(EncodingRank(format, VideoEncodingRanks))
  }

  /** `getAudioBitrate`: `format.audioBitrate || 0`. */
  function AudioBitrateKey(format: Record): Option<int> {
    NumberOrZero(Get(format, "audioBitrate"))
  }

  function AudioEncodingKey(format: Record): Option<int> {
    Some(EncodingRank(format, AudioEncodingRanks))
  }

  /** The key lists of `sortFormatsByVideo` and `sortFormatsByAudio`. */
  const VideoKeys: seq<Record -> Option<int>> := [QualityKey, VideoBitrateKey, VideoEncodingKey]
  const AudioKeys: seq<Record -> Option<int>> := [AudioBitrateKey, AudioEncodingKey]

  /** `x - y`, NaN when either side is NaN. */
  function Minus(x: Option<int>, y: Option<int>): Option<int> {
    if x.Some? && y.Some? then Some(x.value - y.value) else None
  }

  /** What `sortFormatsBy(a, b, keys)` returns: the first non-zero `key(b) - key(a)`
      (NaN counts as non-zero), or 0. A non-zero result is the difference of one
      of the keys. */
  function CompareBy(a: Record, b: Record, keys: seq<Record -> Option<int>>): (r: Option<int>)
    ensures r != Some(0) ==> (exists i :: 0 <= i < |keys| && r == Minus(keys[i](b), keys[i](a)))
    decreases |keys|
  {
    if keys == [] then Some(0)
    else
      var d := Minus(keys[0](b), keys[0](a));
      if d != Some(0) then d
      else
        var r := CompareBy(a, b, keys[1..]);
        if r != Some(0) then
          var i :| 0 <= i < |keys[1..]| && r == Minus(keys[1..][i](b), keys[1..][i](a));
          assert keys[1..][i] == keys[i + 1];
          r
        else r
  }

  /** `sortFormatsBy` (k.mjs:64-73): a loop over the keys that stops at the first
      non-zero difference. */
  method SortFormatsBy(a: Record, b: Record, sortBy: seq<Record -> Option<int>>) returns (res: Option<int>)
    ensures res == CompareBy(a, b, sortBy)
  {
    res := Some(0);
    var i := 0;
    while i < |sortBy|
      invariant 0 <= i <= |sortBy|
      invariant res == Some(0)
      invariant CompareBy(a, b, sortBy) == CompareBy(a, b, sortBy[i..])
    {
      assert sortBy[i..][1..] == sortBy[i + 1..];
      res := Minus(sortBy[i](b), sortBy[i](a));
      if res != Some(0) {
        break;
      }
      i := i + 1;
    }
  }

  /** Every key of `a` is a number. */
  predicate Numeric(a: Record, keys: seq<Record -> Option<int>>) {
    forall i :: 0 <= i < |keys| ==> keys[i](a).Some?
  }

  /** The comparison is 0 exactly when every key of both formats is a number and
      the two agree on all of them. */
  lemma {:induction false} CompareZero(a: Record, b: Record, keys: seq<Record -> Option<int>>)
    ensures CompareBy(a, b, keys) == Some(0) <==>
      forall i :: 0 <= i < |keys| ==> keys[i](a).Some? && keys[i](a) == keys[i](b)
    decreases |keys|
  {
    if keys != [] {
      CompareZero(a, b, keys[1..]);
      assert forall i :: 1 <= i < |keys| ==> keys[i] == keys[1..][i - 1];
    }
  }

  /** At the first key where the two formats differ, the comparison is
      `key(b) - key(a)`: the format with the higher key sorts first. */
  lemma {:induction false} CompareAtFirstDifference(a: Record, b: Record, keys: seq<Record -> Option<int>>, i: nat)
    requires i < |keys|
    requires forall j :: 0 <= j < i ==> keys[j](a).Some? && keys[j](a) == keys[j](b)
    requires keys[i](a).Some? && keys[i](b).Some? && keys[i](a) != keys[i](b)
    ensures CompareBy(a, b, keys) == Some(keys[i](b).value - keys[i](a).value)
    decreases i
  {
    if i > 0 {
      assert keys[0](a) == keys[0](b) && keys[0](a).Some?;
      CompareAtFirstDifference(a, b, keys[1..], i - 1);
    }
  }

  function Negate(x: Option<int>): Option<int> {
    if x.Some? then Some(-x.value) else None
  }

  /** Swapping the formats negates the comparison (NaN stays NaN). */
  lemma {:induction false} CompareAntisymmetric(a: Record, b: Record, keys: seq<Record -> Option<int>>)
    ensures CompareBy(b, a, keys) == Negate(CompareBy(a, b, keys))
    decreases |keys|
  {
    if keys != [] {
      CompareAntisymmetric(a, b, keys[1..]);
    }
  }

  /** How `Array.prototype.sort` reads a comparator result: NaN counts as 0. */
  function SortValue(x: Option<int>): int {
    x.GetOr(0)
  }

  /** "a does not sort after b" is transitive for formats whose keys are numbers. */
  lemma {:induction false} CompareTransitive(a: Record, b: Record, c: Record, keys: seq<Record -> Option<int>>)
    requires Numeric(a, keys) && Numeric(b, keys) && Numeric(c, keys)
    requires SortValue(CompareBy(a, b, keys)) <= 0 && SortValue(CompareBy(b, c, keys)) <= 0
    ensures SortValue(CompareBy(a, c, keys)) <= 0
    decreases |keys|
  {
    if keys != [] {
      assert forall i :: 1 <= i < |keys| ==> keys[i] == keys[1..][i - 1];
      if keys[0](a) == keys[0](b) && keys[0](b) == keys[0](c) {
        CompareTransitive(a, b, c, keys[1..]);
      }
    }
  }

  /** The comparator handed to `sort`. */
  function Comparator(keys: seq<Record -> Option<int>>): (Record, Record) -> int {
    (a, b) => SortValue(CompareBy(a, b, keys))
  }

  /** Over formats whose keys are all numbers, the comparator is consistent. */
  lemma ComparatorConsistent(keys: seq<Record -> Option<int>>, formats: seq<Record>)
    requires forall i :: 0 <= i < |formats| ==> Numeric(formats[i], keys)
    ensures Consistent(Comparator(keys), formats)
  {
    var cmp := Comparator(keys);
    forall a, b | a in formats && b in formats && cmp(a, b) >= 0 ensures cmp(b, a) <= 0 {
      CompareAntisymmetric(a, b, keys);
    }
    forall a, b, c | a in formats && b in formats && c in formats && cmp(a, b) <= 0 && cmp(b, c) <= 0
      ensures cmp(a, c) <= 0
    {
      CompareTransitive(a, b, c, keys);
    }
  }

  /** The audio encoding key is always a number, so numeric audio bitrates make
      every audio key numeric. */
  lemma AudioKeysNumeric(all: seq<Record>)
    requires forall i :: 0 <= i < |all| ==> AudioBitrateKey(all[i]).Some?
    ensures forall i :: 0 <= i < |all| ==> Numeric(all[i], AudioKeys)
  {
    forall i | 0 <= i < |all| ensures Numeric(all[i], AudioKeys) {
      assert AudioKeys[0](all[i]) == AudioBitrateKey(all[i]);
      assert AudioKeys[1](all[i]) == AudioEncodingKey(all[i]);
    }
  }

  /** `xs.map(f)` for an `f` that may throw (None): None as soon as one call throws. */
  function TryMap<T, U>(xs: seq<T>, f: T -> Option<U>): (r: Option<seq<U>>)
    ensures r.Some? ==> |r.value| == |xs|
  {
    if xs == [] then Some([])
    else
      match f(xs[0])
      case None => None
      case Some(first) =>
        match TryMap(xs[1..], f)
        case None => None
        case Some(rest) => Some([first] + rest)
  }

  /** The map succeeds exactly when every call does, and then holds each call's
      result, in the original order. */
  lemma {:induction false} TryMapSpec<T, U>(xs: seq<T>, f: T -> Option<U>)
    ensures TryMap(xs, f).None? <==> exists i :: 0 <= i < |xs| && f(xs[i]).None?
    ensures TryMap(xs, f).Some? ==> forall i :: 0 <= i < |xs| ==> f(xs[i]) == Some(TryMap(xs, f).value[i])
  {
    if xs != [] {
      TryMapSpec(xs[1..], f);
      forall i | 0 < i < |xs| ensures f(xs[i]) == f(xs[1..][i - 1]) {
      }
    }
  }

  /** `addFormatMeta` with the format table and the parameter parser fixed. */
  function Normaliser(table: map<string, Record>, parseParams: Value -> map<string, string>): Record -> Option<Record> {
    format => FormatMeta.AddFormatMeta(format, table, parseParams)
  }

  /** `formats.map(addFormatMeta)`: None as soon as one normalisation throws. */
  function NormaliseAll(formats: seq<Record>, table: map<string, Record>, parseParams: Value -> map<string, string>): Option<seq<Record>> {
    TryMap(formats, Normaliser(table, parseParams))
  }

  /** `[...data.formats, ...data.adaptiveFormats].map(addFormatMeta).sort(sortFormatsByAudio)`:
      it throws exactly when one normalisation throws, and otherwise holds as many
      formats as the two lists together. */
  function RankedByAudio(formats: seq<Record>, adaptive: seq<Record>, table: map<string, Record>, parseParams: Value -> map<string, string>): (r: Option<seq<Record>>)
    ensures r.None? <==> (exists i :: 0 <= i < |formats + adaptive| &&
                            FormatMeta.AddFormatMeta((formats + adaptive)[i], table, parseParams).None?)
    ensures r.Some? ==> |r.value| == |formats| + |adaptive|
  {
    TryMapSpec(formats + adaptive, Normaliser(table, parseParams));
    match NormaliseAll(formats + adaptive, table, parseParams)
    case None => None
    case Some(all) => Some(Sort(all, Comparator(AudioKeys)))
  }

  /** The ranked list is a reordering of the normalised formats; when every audio
      bitrate reads as a number it is ordered best audio first: no format is
      followed by one with a higher audio bitrate, or an equal bitrate and a better
      audio encoding. */
  lemma RankedByAudioOrdered(formats: seq<Record>, adaptive: seq<Record>, table: map<string, Record>, parseParams: Value -> map<string, string>)
    requires RankedByAudio(formats, adaptive, table, parseParams).Some?
    ensures var all := NormaliseAll(formats + adaptive, table, parseParams);
      var ranked := RankedByAudio(formats, adaptive, table, parseParams).value;
      && all.Some?
      && multiset(ranked) == multiset(all.value)
      && ((forall i :: 0 <= i < |all.value| ==> AudioBitrateKey(all.value[i]).Some?) ==>
            forall i, j :: 0 <= i < j < |ranked| ==> SortValue(CompareBy(ranked[i], ranked[j], AudioKeys)) <= 0)
  {
    var all := NormaliseAll(formats + adaptive, table, parseParams).value;
    if forall i :: 0 <= i < |all| ==> AudioBitrateKey(all[i]).Some? {
      AudioKeysNumeric(all);
      ComparatorConsistent(AudioKeys, all);
      SortSorted(all, Comparator(AudioKeys));
    }
  }
}
