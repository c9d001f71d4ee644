/** The download-URL rewrite `setDownloadURL` (k.mjs:175-209) and the per-format
    loop `decipherFormats` (k.mjs:210-225), which update format objects in place.
    Node's URL machinery is abstract: a decoder, a parser and a renderer. */
module DownloadUrl {
  import opened Wrappers
  import opened JsValues
  import Decipher

  /** The parts of `url.parse(text, true)` the rewrite touches: the serialised query
      (`search`), the parsed query, and everything else (`rest`). */
  datatype ParsedUrl = ParsedUrl(rest: string, search: Option<string>, query: map<string, string>)

  /** `decodeURIComponent` (None when it throws), `url.parse(text, true)` and
      `url.format(parsed)`. */
  datatype UrlCodec = UrlCodec(
    decode: string -> Option<string>,
    parse: string -> ParsedUrl,
    render: ParsedUrl -> string)

  /** A format object whose properties the code assigns and deletes. */
  class Format {
    var props: Record

    constructor (props: Record)
      ensures this.props == props
    {
      this.props := props;
    }
  }

  /** `format.sp || 'signature'`, as a property key. */
  function SignatureKey(props: Record): (key: string)
    ensures !Truthy(Get(props, "sp")) ==> key == "signature"
    ensures Get(props, "sp").Str? && Truthy(Get(props, "sp")) ==> key == Get(props, "sp").s
  {
    var sp := Get(props, "sp");
    if Truthy(sp) then ToJsString(sp) else "signature"
  }

  /** A signature is stored only when it is truthy: present and non-empty. */
  predicate HasSignature(sig: Option<string>) {
    sig.Some? && sig.value != ""
  }

  /** The query after k.mjs:200-206: `ratebypass` is "yes" (unless the signature
      itself goes under that key), a truthy signature sits under `key`, and every
      other parameter is untouched. */
  function AdjustedQuery(query: map<string, string>, sig: Option<string>, key: string): (q: map<string, string>)
    ensures q.Keys == query.Keys + {"ratebypass"} + (if HasSignature(sig) then {key} else {})
    ensures HasSignature(sig) ==> q[key] == sig.value
    ensures !(HasSignature(sig) && key == "ratebypass") ==> q["ratebypass"] == "yes"
    ensures forall k :: k in query && k != "ratebypass" && !(HasSignature(sig) && k == key) ==> q[k] == query[k]
  {
    var q := query["ratebypass" := "yes"];
    if HasSignature(sig) then q[key := sig.value] else q
  }

  /** The parsed URL after the rewrite: no serialised search, the adjusted query,
      everything else as parsed. */
  function Rewritten(parsed: ParsedUrl, sig: Option<string>, key: string): (p: ParsedUrl)
    ensures p.search == None && p.rest == parsed.rest
    ensures p.query == AdjustedQuery(parsed.query, sig, key)
  {
    parsed.(search := None).(query := AdjustedQuery(parsed.query, sig, key))
  }

  /** What `setDownloadURL(format, sig)` leaves in the format's properties: the
      format untouched when `url` is falsy or does not decode; otherwise `url`
      alone replaced, with the rendering of the rewritten URL. */
  function WithDownloadUrl(props: Record, sig: Option<string>, codec: UrlCodec): (r: Record)
    ensures r.Keys == props.Keys && r - {"url"} == props - {"url"}
    ensures var url := Get(props, "url");
      && (!Truthy(url) || codec.decode(ToJsString(url)).None? ==> Get(r, "url") == url)
      && (Truthy(url) && codec.decode(ToJsString(url)).Some? ==>
            r["url"] == Str(codec.render(
              Rewritten(codec.parse(codec.decode(ToJsString(url)).value), sig, SignatureKey(props)))))
  {
    var url := Get(props, "url");
    if !Truthy(url) then props
    else
      match codec.decode(ToJsString(url))
      case None => props
      case Some(decoded) =>
        assert "url" in props;
        props["url" := Str(codec.render(Rewritten(codec.parse(decoded), sig, SignatureKey(props))))]
  }

  /** `setDownloadURL` (k.mjs:175-209). */
  method SetDownloadUrl(format: Format, sig: Option<string>, codec: UrlCodec)
    modifies format
    ensures format.props == WithDownloadUrl(old(format.props), sig, codec)
  {
    var url := Get(format.props, "url");
    if !Truthy(url) {
      return;
    }
    var decoded := codec.decode(ToJsString(url));
    if decoded.None? {
      return;
    }
    var parsed := codec.parse(decoded.value);
    parsed := parsed.(search := None);
    var query := parsed.query;
    query := query["ratebypass" := "yes"];
    if sig.Some? && sig.value != "" {
      query := query[SignatureKey(format.props) := sig.value];
    }
    format.props := format.props["url" := Str(codec.render(parsed.(query := query)))];
  }

  /** The properties after the cipher parameters are merged in and the cipher
      fields deleted (k.mjs:214-219); `parseCipher` stands for reading
      `new URL(cipher).searchParams`. */
  function CipherMerged(props: Record, parseCipher: Value -> map<string, string>): (r: Record)
    ensures !Truthy(Or(Get(props, "signatureCipher"), Get(props, "cipher"))) ==> r == props
    ensures var cipher := Or(Get(props, "signatureCipher"), Get(props, "cipher"));
      var params := parseCipher(cipher);
      Truthy(cipher) ==>
        && r.Keys == (props.Keys + params.Keys) - {"signatureCipher", "cipher"}
        && (forall k :: k in params && k != "signatureCipher" && k != "cipher" ==> r[k] == Str(params[k]))
        && (forall k :: k in props && k !in params && k != "signatureCipher" && k != "cipher" ==> r[k] == props[k])
  {
    var cipher := Or(Get(props, "signatureCipher"), Get(props, "cipher"));
    if Truthy(cipher) then (props + StrValues(parseCipher(cipher))) - {"signatureCipher", "cipher"}
    else props
  }

  /** `format.s` is a string whenever it is truthy: `decipher` splits it. */
  predicate SignatureIsText(props: Record) {
    Truthy(Get(props, "s")) ==> Get(props, "s").Str?
  }

  /** `tokens && format.s ? decipher(tokens, format.s) : null`. */
  function SignatureOf(props: Record, tokens: Option<seq<string>>): (sig: Option<string>)
    requires tokens.Some? ==> Decipher.WellFormedTokens(tokens.value)
    requires SignatureIsText(props)
    ensures sig.Some? <==> tokens.Some? && Truthy(Get(props, "s"))
  {
    var s := Get(props, "s");
    if tokens.Some? && Truthy(s) then Some(Decipher.Deciphered(tokens.value, s.s)) else None
  }

  /** One pass of the `forEach` body over a format's properties: after the cipher
      merge only `url` can change, and it changes exactly when it is truthy and
      decodes. */
  function Processed(props: Record, tokens: Option<seq<string>>, parseCipher: Value -> map<string, string>, codec: UrlCodec): (r: Record)
    requires tokens.Some? ==> Decipher.WellFormedTokens(tokens.value)
    requires SignatureIsText(CipherMerged(props, parseCipher))
    ensures var merged := CipherMerged(props, parseCipher);
      && r.Keys == merged.Keys
      && r - {"url"} == merged - {"url"}
      && (!Truthy(Get(merged, "url")) || codec.decode(ToJsString(Get(merged, "url"))).None? ==>
            Get(r, "url") == Get(merged, "url"))
  {
    var merged := CipherMerged(props, parseCipher);
    WithDownloadUrl(merged, SignatureOf(merged, tokens), codec)
  }

  /** The dictionary key `decipheredFormats[format.url]` uses. */
  function UrlKey(props: Record): string {
    ToJsString(Get(props, "url"))
  }

  /** The `forEach` body on `formats[i]`: that format is processed and no other
      format changes. */
  method ProcessAt(formats: seq<Format>, i: nat, tokens: Option<seq<string>>,
                   parseCipher: Value -> map<string, string>, codec: UrlCodec)
    requires i < |formats| && forall j :: 0 <= j < |formats| && j != i ==> formats[j] != formats[i]
    requires tokens.Some? ==> Decipher.WellFormedTokens(tokens.value)
    requires SignatureIsText(CipherMerged(formats[i].props, parseCipher))
    modifies formats[i]
    ensures formats[i].props == Processed(old(formats[i].props), tokens, parseCipher, codec)
    ensures forall j :: 0 <= j < |formats| && j != i ==> formats[j].props == old(formats[j].props)
  {
    ProcessFormat(formats[i], tokens, parseCipher, codec);
  }

  /** The URL keys of the formats, in order. */
  ghost function UrlKeys(formats: seq<Format>): (keys: seq<string>)
    reads set j | 0 <= j < |formats| :: formats[j]
    ensures |keys| == |formats|
  {
    seq(|formats|, j requires 0 <= j < |formats| reads set k | 0 <= k < |formats| :: formats[k] => UrlKey(formats[j].props))
  }

  /** The body of the `forEach` in `decipherFormats` (k.mjs:214-223), on one format. */
  method ProcessFormat(format: Format, tokens: Option<seq<string>>,
                       parseCipher: Value -> map<string, string>, codec: UrlCodec)
    requires tokens.Some? ==> Decipher.WellFormedTokens(tokens.value)
    requires SignatureIsText(CipherMerged(format.props, parseCipher))
    modifies format
    ensures format.props == Processed(old(format.props), tokens, parseCipher, codec)
  {
    var cipher := Or(Get(format.props, "signatureCipher"), Get(format.props, "cipher"));
    if Truthy(cipher) {
      format.props := format.props + StrValues(parseCipher(cipher));
      format.props := format.props - {"signatureCipher", "cipher"};
    }
    var sig: Option<string> := None;
    var s := Get(format.props, "s");
    if tokens.Some? && Truthy(s) {
      var d := Decipher.Decipher(tokens.value, s.s);
      sig := Some(d);
    }
    SetDownloadUrl(format, sig, codec);
  }

  /** The dictionary left by assigning `objs[j]` under `keys[j]` for each `j` in
      turn, for as many keys as there are. */
  function Dictionary<K, V>(keys: seq<K>, objs: seq<V>): map<K, V>
    requires |keys| <= |objs|
  {
    if keys == [] then map[]
    else Dictionary(keys[..|keys| - 1], objs)[keys[|keys| - 1] := objs[|keys| - 1]]
  }

  /** Its keys are exactly the keys assigned. */
  lemma {:induction false} DictionaryKeys<K, V>(keys: seq<K>, objs: seq<V>)
    requires |keys| <= |objs|
    ensures Dictionary(keys, objs).Keys == set j | 0 <= j < |keys| :: keys[j]
  {
    if keys != [] {
      var front := keys[..|keys| - 1];
      DictionaryKeys(front, objs);
      assert (set j | 0 <= j < |keys| :: keys[j]) == (set j | 0 <= j < |front| :: front[j]) + {keys[|front|]};
    }
  }

  /** A key holds the object assigned with its last assignment. */
  lemma {:induction false} DictionaryLast<K, V>(keys: seq<K>, objs: seq<V>, i: nat)
    requires |keys| <= |objs| && i < |keys|
    requires forall k :: i < k < |keys| ==> keys[k] != keys[i]
    ensures keys[i] in Dictionary(keys, objs) && Dictionary(keys, objs)[keys[i]] == objs[i]
  {
    if i < |keys| - 1 {
      DictionaryLast(keys[..|keys| - 1], objs, i);
    }
  }

  /** One more assignment. */
  lemma DictionarySnoc<K, V>(keys: seq<K>, objs: seq<V>, k: K)
    requires |keys| < |objs|
    ensures Dictionary(keys + [k], objs) == Dictionary(keys, objs)[k := objs[|keys|]]
  {
    assert (keys + [k])[..|keys|] == keys;
  }

  /** `decipherFormats` (k.mjs:210-225) with the tokens given: every format is
      processed in place, and the dictionary is what assigning each format under
      its final URL, in order, leaves (so each URL maps to the last format that has
      it, by `DictionaryLast`). The formats are distinct objects. */
  method DecipherFormats(formats: seq<Format>, tokens: Option<seq<string>>,
                         parseCipher: Value -> map<string, string>, codec: UrlCodec)
    returns (deciphered: map<string, Format>)
    requires forall i, j :: 0 <= i < j < |formats| ==> formats[i] != formats[j]
    requires tokens.Some? ==> Decipher.WellFormedTokens(tokens.value)
    requires forall i :: 0 <= i < |formats| ==> SignatureIsText(CipherMerged(formats[i].props, parseCipher))
    modifies set i | 0 <= i < |formats| :: formats[i]
    ensures forall i :: 0 <= i < |formats| ==>
      formats[i].props == Processed(old(formats[i].props), tokens, parseCipher, codec)
    ensures deciphered == Dictionary(UrlKeys(formats), formats)
  {
    deciphered := map[];
    ghost var keys: seq<string> := [];
    var i := 0;
    while i < |formats|
      invariant 0 <= i <= |formats| && |keys| == i
      invariant forall j :: 0 <= j < i ==>
        formats[j].props == Processed(old(formats[j].props), tokens, parseCipher, codec)
      invariant forall j :: i <= j < |formats| ==> formats[j].props == old(formats[j].props)
      invariant forall j :: 0 <= j < i ==> keys[j] == UrlKey(formats[j].props)
      invariant deciphered == Dictionary(keys, formats)
    {
      var format := formats[i];
      ProcessAt(formats, i, tokens, parseCipher, codec);
      DictionarySnoc(keys, formats, UrlKey(format.props));
      deciphered := deciphered[UrlKey(format.props) := format];
      keys := keys + [UrlKey(format.props)];
      i := i + 1;
    }
    assert keys == UrlKeys(formats);
  }
}
