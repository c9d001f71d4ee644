/** The format metadata normaliser: `between` (k.mjs:87-103) and `addFormatMeta`
    (k.mjs:108-127), which builds a fresh record from a raw format descriptor. */
module FormatMeta {
  import opened Wrappers
  import opened JsText
  import opened JsValues

  /** `between(haystack, left, right)` with a string `left`: the text after the first
      `left` up to the next `right`, or "" when either is missing. The result is
      "" without a `left`, and otherwise a text that starts right after the first
      `left`. */
  function Between(haystack: string, left: string, right: string): (r: string)
    ensures IndexOf(haystack, left) == -1 ==> r == ""
    ensures IndexOf(haystack, left) != -1 ==> OccursAt(haystack, r, IndexOf(haystack, left) + |left|)
  {
    var pos := IndexOf(haystack, left);
    if pos == -1 then ""
    else
      var rest := haystack[pos + |left|..];
      var end := IndexOf(rest, right);
      if end == -1 then "" else
        assert haystack[pos + |left|..pos + |left| + end] == rest[..end];
        rest[..end]
  }

  /** The first occurrence of `needle` in `s` is at `p`. */
  predicate FirstAt(s: string, needle: string, p: nat) {
    OccursAt(s, needle, p) && forall i :: 0 <= i < p ==> !OccursAt(s, needle, i)
  }

  lemma FirstAtIsIndexOf(s: string, needle: string, p: nat)
    requires FirstAt(s, needle, p)
    ensures IndexOf(s, needle) == p
  {
    IncludesAt(s, needle, p);
    IndexOfFound(s, needle);
    IndexOfFirst(s, needle);
  }

  /** A first occurrence at or after `a` is a first occurrence in the suffix from `a`. */
  lemma FirstInSuffix(h: string, needle: string, a: nat, q: nat)
    requires a <= q && OccursAt(h, needle, q)
    requires forall j :: a <= j < q ==> !OccursAt(h, needle, j)
    ensures FirstAt(h[a..], needle, q - a)
  {
    forall j | 0 <= j < q - a ensures !OccursAt(h[a..], needle, j) {
      OccursInSuffix(h, needle, a, j);
    }
    OccursInSuffix(h, needle, a, q - a);
  }

  /** When `left` first occurs at `p` and `right` next occurs at `q`, `between`
      returns exactly the text in between, and that text never contains `right`. */
  lemma BetweenFound(h: string, left: string, right: string, p: nat, q: nat)
    requires right != ""
    requires FirstAt(h, left, p)
    requires p + |left| <= q && OccursAt(h, right, q)
    requires forall j :: p + |left| <= j < q ==> !OccursAt(h, right, j)
    ensures Between(h, left, right) == h[p + |left|..q]
    ensures !Includes(Between(h, left, right), right)
  {
    FirstAtIsIndexOf(h, left, p);
    NextFound(h, right, p + |left|, q);
    var rest := h[p + |left|..];
    assert Between(h, left, right) == rest[..q - p - |left|];
  }

  /** Searching the suffix from `a` for the next occurrence at `q` finds it, and
      the text up to it does not contain the needle. */
  lemma NextFound(h: string, needle: string, a: nat, q: nat)
    requires needle != ""
    requires a <= q && OccursAt(h, needle, q)
    requires forall j :: a <= j < q ==> !OccursAt(h, needle, j)
    ensures IndexOf(h[a..], needle) == q - a
    ensures h[a..][..q - a] == h[a..q]
    ensures !Includes(h[a..q], needle)
  {
    FirstInSuffix(h, needle, a, q);
    FirstAtIsIndexOf(h[a..], needle, q - a);
    NoneBeforeFirst(h[a..], needle, q - a);
    assert h[a..][..q - a] == h[a..q];
  }

  /** `between` is "" when `left` does not occur. */
  lemma BetweenNoLeft(h: string, left: string, right: string)
    requires forall i :: 0 <= i <= |h| ==> !OccursAt(h, left, i)
    ensures Between(h, left, right) == ""
  {
    IndexOfFound(h, left);
  }

  /** `between` is "" when `right` does not occur after the first `left`. */
  lemma BetweenNoRight(h: string, left: string, right: string, p: nat)
    requires FirstAt(h, left, p)
    requires forall j :: p + |left| <= j <= |h| ==> !OccursAt(h, right, j)
    ensures Between(h, left, right) == ""
  {
    FirstAtIsIndexOf(h, left, p);
    NoneInSuffix(h, right, p + |left|);
    IndexOfFound(h[p + |left|..], right);
  }

  /** No occurrence from `a` on means none in the suffix from `a`. */
  lemma NoneInSuffix(h: string, needle: string, a: nat)
    requires a <= |h|
    requires forall j :: a <= j <= |h| ==> !OccursAt(h, needle, j)
    ensures !Includes(h[a..], needle)
  {
    forall j | 0 <= j <= |h| - a ensures !OccursAt(h[a..], needle, j) {
      OccursInSuffix(h, needle, a, j);
    }
  }

  /** The keys `addFormatMeta` computes, overwriting whatever the sources held. */
  const DerivedKeys: set<string> :=
    {"hasVideo", "hasAudio", "container", "codecs", "videoCodec", "audioCodec", "isLive", "isHLS", "isDashMPD"}

  /** `format.signatureCipher || format.cipher`. */
  function CipherText(format: Record): Value {
    Or(Get(format, "signatureCipher"), Get(format, "cipher"))
  }

  /** `FORMATS[format.itag]`, or nothing when the table has no such entry. */
  function TableEntry(format: Record, table: map<string, Record>): Record {
    var key := ToJsString(Get(format, "itag"));
    if key in table then table[key] else map[]
  }

  /** `Object.assign({}, FORMATS[format.itag], format, additionalEntries)`, where the
      additional entries are the cipher text read as query parameters (`parseParams`
      stands for `new URLSearchParams(...)`). */
  function Merged(format: Record, table: map<string, Record>, parseParams: Value -> map<string, string>): Record {
    TableEntry(format, table) + format + StrValues(parseParams(CipherText(format)))
  }

  /** `mimeType.split(';')[0].split('/')[1]`: `undefined` when there is no second
      piece, that is when the part before the first ';' has no '/'. */
  function Container(mime: string): Value {
    var kind := FirstPiece(mime, ";");
    if Includes(kind, "/") then Str(SecondPiece(kind, "/")) else Undefined
  }

  const CodecsOpen: string := "codecs=\""
  const CodecsClose: string := "\""

  predicate IsWordChar(c: char) {
    'a' <= c <= 'z' || 'A' <= c <= 'Z' || '0' <= c <= '9' || c == '_'
  }

  /** `/\bsource[/=]yt_live_broadcast\b/` matches at index `i`. */
  predicate LiveMarkerAt(s: string, i: nat) {
    && i + 24 <= |s|
    && s[i..i + 6] == "source"
    && (s[i + 6] == '/' || s[i + 6] == '=')
    && s[i + 7..i + 24] == "yt_live_broadcast"
    && (i == 0 || !IsWordChar(s[i - 1]))
    && (i + 24 == |s| || !IsWordChar(s[i + 24]))
  }

  /** The regular expression's `test`, scanning from `from`. */
  function LiveFrom(s: string, from: nat): (r: bool)
    requires from <= |s|
    ensures r <==> exists i :: from <= i <= |s| && LiveMarkerAt(s, i)
    decreases |s| - from
  {
    if LiveMarkerAt(s, from) then true
    else if from == |s| then false
    else LiveFrom(s, from + 1)
  }

  predicate IsLive(url: string) {
    LiveFrom(url, 0)
  }

  /** `/\/manifest\/hls_(variant|playlist)\//.test(url)`. */
  predicate IsHls(url: string) {
    Includes(url, "/manifest/hls_variant/") || Includes(url, "/manifest/hls_playlist/")
  }

  /** `/\/manifest\/dash\//.test(url)`. */
  predicate IsDashMpd(url: string) {
    Includes(url, "/manifest/dash/")
  }

  /** `format.codecs`: null without a media type, otherwise the text between
      `codecs="` and the next quote, which never contains that quote. */
  function CodecsOf(mime: Value): (r: Value)
    ensures r == Null <==> !Truthy(mime) || !mime.Str?
    ensures r != Null ==> r.Str? && !Includes(r.s, CodecsClose)
  {
    if Truthy(mime) && mime.Str? then
      BetweenNeverHoldsRight(mime.s, CodecsOpen, CodecsClose);
      Str(Between(mime.s, CodecsOpen, CodecsClose))
    else Null
  }

  /** `format.videoCodec`: null unless the format has video and non-empty codecs,
      and then the first ", "-separated piece of the codecs. */
  function VideoCodecOf(hasVideo: bool, codecs: Value): (r: Value)
    ensures r != Null <==> hasVideo && Truthy(codecs) && codecs.Str?
    ensures r != Null ==> r.Str? && IsFirstPiece(codecs.s, r.s, ", ")
  {
    if hasVideo && Truthy(codecs) && codecs.Str? then
      Str(FirstPiece(codecs.s, ", "))
    else Null
  }

  /** `format.audioCodec`: null unless the format has audio and non-empty codecs,
      and then the last ", "-separated piece of the codecs. */
  function AudioCodecOf(hasAudio: bool, codecs: Value): (r: Value)
    ensures r != Null <==> hasAudio && Truthy(codecs) && codecs.Str?
    ensures r != Null ==> r.Str? && IsLastPiece(codecs.s, r.s, ", ")
  {
    if hasAudio && Truthy(codecs) && codecs.Str? then
      Str(LastPiece(codecs.s, ", "))
    else Null
  }

  /** `format.container`: null without a media type, otherwise `Container`. */
  function ContainerOf(mime: Value): Value {
    if Truthy(mime) && mime.Str? then Container(mime.s) else Null
  }

  /** The nine fields `addFormatMeta` computes from the merged record `m`
      (k.mjs:112-124). */
  function Derived(m: Record): (d: Record)
    ensures d.Keys == DerivedKeys
  {
    var mime := Get(m, "mimeType");
    var hasVideo := Truthy(Get(m, "qualityLabel"));
    var hasAudio := Truthy(Get(m, "audioBitrate"));
    var codecs := CodecsOf(mime);
    var url := ToJsString(Get(m, "url"));
    map[
      "hasVideo" := Bool(hasVideo),
      "hasAudio" := Bool(hasAudio),
      "container" := ContainerOf(mime),
      "codecs" := codecs,
      "videoCodec" := VideoCodecOf(hasVideo, codecs),
      "audioCodec" := AudioCodecOf(hasAudio, codecs),
      "isLive" := Bool(IsLive(url)),
      "isHLS" := Bool(IsHls(url)),
      "isDashMPD" := Bool(IsDashMpd(url))]
  }

  /** `addFormatMeta(format)`. A truthy `mimeType` that is not a string makes
      `mimeType.split` throw a TypeError, written None. Otherwise the record holds
      every key of the table entry, the format and the cipher parameters, and the
      nine derived keys. */
  function AddFormatMeta(format: Record, table: map<string, Record>, parseParams: Value -> map<string, string>): (r: Option<Record>)
    ensures r.None? <==> Truthy(Get(Merged(format, table, parseParams), "mimeType"))
                         && !Get(Merged(format, table, parseParams), "mimeType").Str?
    ensures r.Some? ==> r.value.Keys == TableEntry(format, table).Keys + format.Keys
                                        + parseParams(CipherText(format)).Keys + DerivedKeys
  {
    var m := Merged(format, table, parseParams);
    var mime := Get(m, "mimeType");
    if Truthy(mime) && !mime.Str? then None else Some(m + Derived(m))
  }

  /** Field precedence, table < format < cipher parameters, for every key that is
      not derived; the derived keys hold what `Derived` computes. */
  lemma AddFormatMetaPrecedence(format: Record, table: map<string, Record>, parseParams: Value -> map<string, string>, k: string)
    requires AddFormatMeta(format, table, parseParams).Some?
    ensures var r := AddFormatMeta(format, table, parseParams).value;
      var params := parseParams(CipherText(format));
      var entry := TableEntry(format, table);
      && (k in DerivedKeys ==> k in r && r[k] == Derived(Merged(format, table, parseParams))[k])
      && (k !in DerivedKeys ==>
        && (k in r <==> k in params || k in format || k in entry)
        && (k in params ==> r[k] == Str(params[k]))
        && (k !in params && k in format ==> r[k] == format[k])
        && (k !in params && k !in format && k in entry ==> r[k] == entry[k]))
  {
  }

  /** hasVideo holds exactly when the merged qualityLabel is truthy (a non-empty
      label) and hasAudio exactly when the merged audioBitrate is truthy (non-zero);
      the codec fields agree with the flags and with `codecs`. */
  lemma DerivedFields(m: Record)
    ensures var d := Derived(m);
      && d["hasVideo"] == Bool(Truthy(Get(m, "qualityLabel")))
      && d["hasAudio"] == Bool(Truthy(Get(m, "audioBitrate")))
      && (d["codecs"] == Null <==> !Truthy(Get(m, "mimeType")) || !Get(m, "mimeType").Str?)
      && (d["videoCodec"] != Null <==> d["hasVideo"] == Bool(true) && Truthy(d["codecs"]))
      && (d["audioCodec"] != Null <==> d["hasAudio"] == Bool(true) && Truthy(d["codecs"]))
  {
  }

  /** Whatever the input, the text `between` returns does not contain a non-empty `right`. */
  lemma BetweenNeverHoldsRight(h: string, left: string, right: string)
    requires right != ""
    ensures !Includes(Between(h, left, right), right)
  {
    assert !OccursAt("", right, 0);
    if IndexOf(h, left) != -1 {
      BeforeFirstClean(h[IndexOf(h, left) + |left|..], right);
    }
  }

  /** The container is `undefined` when the part before the first ';' has no '/',
      and otherwise the '/'- and ';'-free text that follows the first '/'. */
  lemma ContainerSpec(mime: string)
    ensures var kind := FirstPiece(mime, ";");
      var c := Container(mime);
      && IsFirstPiece(mime, kind, ";")
      && (c == Undefined <==> !Includes(kind, "/"))
      && (c != Undefined ==>
            && c.Str?
            && OccursAt(kind, "/" + c.s, IndexOf(kind, "/"))
            && IsFirstPiece(kind[IndexOf(kind, "/") + 1..], c.s, "/")
            && !Includes(c.s, "/")
            && !Includes(c.s, ";"))
  {
    if Includes(FirstPiece(mime, ";"), "/") {
      SecondPieceClean(FirstPiece(mime, ";"));
    }
  }

  /** The second '/'-piece of a ';'-free text is ';'-free. */
  lemma SecondPieceClean(kind: string)
    requires Includes(kind, "/") && !Includes(kind, ";")
    ensures !Includes(SecondPiece(kind, "/"), ";")
  {
    assert kind[IndexOf(kind, "/") + 1..][..|SecondPiece(kind, "/")|] == SecondPiece(kind, "/");
    NoSemicolonInPrefix(kind, SecondPiece(kind, "/"), IndexOf(kind, "/") + 1);
  }

  /** Text found inside a ';'-free string is ';'-free. */
  lemma NoSemicolonInPrefix(kind: string, p: string, at: nat)
    requires !Includes(kind, ";")
    requires at + |p| <= |kind| && kind[at..at + |p|] == p
    ensures !Includes(p, ";")
  {
    forall j | 0 <= j <= |p| ensures !OccursAt(p, ";", j) {
      if j + 1 <= |p| && OccursAt(p, ";", j) {
        assert p[j] == kind[at..at + |p|][j] == kind[at + j];
        assert p[j..j + 1] == [p[j]];
        assert kind[at + j..at + j + 1] == [kind[at + j]];
        assert OccursAt(kind, ";", at + j);
      }
    }
  }
}
