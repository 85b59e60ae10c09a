/**
 * The query-string parser (`QueryStringParser.parse`): `&`-separated segments, each cut at its
 * first `=` into a raw key and a decoded value, gathered into a map from key to the values in
 * encounter order. The older request handler's `parseQuery` has the same body and is this
 * function too.
 */
module QueryStringParser {
  import opened Wrappers
  import opened JavaText

  /** Parameter name to its values in encounter order (Java: `Map<String, String[]>`). */
  type Params = map<string, seq<string>>

  /** `URLDecoder.decode(value, "UTF-8")`, left abstract: it either yields text or throws. */
  type Decoder = string -> Result<string, Thrown>

  /**
   * `decodeUtf8`: runs the decoder and rethrows the checked charset exception wrapped in a
   * runtime exception; a decoded value and every other exception pass through unchanged.
   */
  function DecodeUtf8(decode: Decoder, value: string): (r: Result<string, Thrown>)
    ensures r.Success? <==> decode(value).Success?
    ensures r.Success? ==> r.value == decode(value).value
    ensures r.Failure? ==> r.error != UnsupportedEncoding
    ensures decode(value) == Failure(UnsupportedEncoding) ==> r == Failure(Runtime(UnsupportedEncoding))
    ensures decode(value).Failure? && decode(value).error != UnsupportedEncoding ==> r == decode(value)
  {
    match decode(value)
    case Success(v) => Success(v)
    case Failure(e) => if e == UnsupportedEncoding then Failure(Runtime(e)) else Failure(e)
  }

  /**
   * One non-empty segment: the key is the raw text before the first `=`; the value is the
   * decoded text after it (further `=` included), or "" with no decoding when there is no `=`.
   */
  function DecodePair(pair: string, decode: Decoder): (r: Result<(string, string), Thrown>)
    ensures '=' !in pair ==> r == Success((pair, ""))
    ensures '=' in pair ==>
      var key := UpTo(pair, '=');
      var d := DecodeUtf8(decode, pair[|key| + 1..]);
      && (r.Success? <==> d.Success?)
      && (r.Success? ==> r.value == (key, d.value))
      && (r.Failure? ==> r.error == d.error)
  {
    var kv := SplitOnce(pair, '=');
    var key := kv[0];
    var value :- if |kv| > 1 then DecodeUtf8(decode, kv[1]) else Success("");
    assert '=' in pair ==> kv[0] == UpTo(pair, '=') && kv[1] == pair[|kv[0]| + 1..] by {
      if '=' in pair {
        assert pair[..|kv[0]|] == kv[0];
        assert pair[|kv[0]| + 1..] == kv[1];
      }
    }
    Success((key, value))
  }

  /** Values already gathered for `key` (none when absent). */
  function Get(m: Params, key: string): seq<string>
  {
    if key in m then m[key] else []
  }

  /** `temp.computeIfAbsent(key, …).add(value)`. */
  function Add(m: Params, key: string, value: string): (r: Params)
    ensures r.Keys == m.Keys + {key}
    ensures forall k :: k in r ==> r[k] == Get(m, k) + (if k == key then [value] else [])
  {
    m[key := Get(m, key) + [value]]
  }

  /** The parse loop over the `&`-pieces, skipping empty ones; the first failing decode aborts it. */
  function Accumulate(temp: Params, pairs: seq<string>, decode: Decoder): Result<Params, Thrown>
    decreases |pairs|
  {
    if |pairs| == 0 then Success(temp)
    else if pairs[0] == [] then Accumulate(temp, pairs[1..], decode)
    else
      var kv :- DecodePair(pairs[0], decode);
      Accumulate(Add(temp, kv.0, kv.1), pairs[1..], decode)
  }

  /** `parse(query)`; `None` stands for a null query. */
  function Parse(query: Option<string>, decode: Decoder): (r: Result<Params, Thrown>)
    ensures query.None? || query == Some("") ==> r == Success(map[])
  {
    if query.None? || query.value == [] then Success(map[])
    else Accumulate(map[], Split(query.value, '&'), decode)
  }

  // ---------------------------------------------------------------------------
  // Reference definition: segments, decoded in order, grouped by key
  // ---------------------------------------------------------------------------

  /** The non-empty `&`-separated segments of a query, in order. */
  function Segments(query: string): seq<string>
  {
    NonEmpty(SplitAll(query, '&'))
  }

  /** Segment `i` is the leftmost whose decoding fails, and it fails with `e`. */
  predicate FirstFailureAt(segments: seq<string>, decode: Decoder, i: int, e: Thrown)
    requires 0 <= i < |segments|
  {
    && DecodePair(segments[i], decode) == Failure(e)
    && forall j :: 0 <= j < i ==> DecodePair(segments[j], decode).Success?
  }

  /** Every segment decoded, left to right; the leftmost failure is the result. */
  function DecodeAll(segments: seq<string>, decode: Decoder): (r: Result<seq<(string, string)>, Thrown>)
    ensures r.Success? ==> |r.value| == |segments|
    ensures r.Success? ==> forall i :: 0 <= i < |segments| ==> DecodePair(segments[i], decode) == Success(r.value[i])
    ensures r.Failure? ==> exists i :: 0 <= i < |segments| && FirstFailureAt(segments, decode, i, r.error)
  {
    if |segments| == 0 then Success([])
    else
      match DecodePair(segments[0], decode)
      case Failure(e) =>
        assert FirstFailureAt(segments, decode, 0, e);
        Failure(e)
      case Success(kv) =>
        match DecodeAll(segments[1..], decode)
        case Failure(e) =>
          assert exists i :: 0 <= i < |segments| && FirstFailureAt(segments, decode, i, e) by {
            var i :| 0 <= i < |segments[1..]| && FirstFailureAt(segments[1..], decode, i, e);
            FirstFailureShift(segments, decode, i, e);
          }
          Failure(e)
        case Success(rest) => Success([kv] + rest)
  }

  /** A leftmost failure in the segments after a decodable first one is a leftmost failure of all of them. */
  lemma FirstFailureShift(segments: seq<string>, decode: Decoder, i: int, e: Thrown)
    requires |segments| > 0 && DecodePair(segments[0], decode).Success?
    requires 0 <= i < |segments| - 1 && FirstFailureAt(segments[1..], decode, i, e)
    ensures FirstFailureAt(segments, decode, i + 1, e)
  {
    forall j | 1 <= j < i + 1
      ensures DecodePair(segments[j], decode).Success?
    {
      assert segments[j] == segments[1..][j - 1];
    }
  }

  /** The keys occurring in a list of pairs. */
  function KeysOf(kvs: seq<(string, string)>): set<string>
  {
    set i | 0 <= i < |kvs| :: kvs[i].0
  }

  /** The values paired with `key`, in list order. */
  function ValuesOf(kvs: seq<(string, string)>, key: string): seq<string>
  {
    if |kvs| == 0 then []
    else (if kvs[0].0 == key then [kvs[0].1] else []) + ValuesOf(kvs[1..], key)
  }

  /** The map a list of pairs denotes: each key to all of its values in order. */
  function Group(kvs: seq<(string, string)>): Params
  {
    map k | k in KeysOf(kvs) :: ValuesOf(kvs, k)
  }

  /** Some key of a non-empty map. */
  ghost function AnyKey(m: Params): string
    requires |m.Keys| > 0
  {
    var k :| k in m; k
  }

  /** The number of values under all keys together. */
  ghost function TotalValues(m: Params): nat
    decreases |m.Keys|
  {
    if |m.Keys| == 0 then 0
    else
      var k := AnyKey(m);
      assert (m - {k}).Keys == m.Keys - {k};
      |m[k]| + TotalValues(m - {k})
  }

  // ---------------------------------------------------------------------------
  // Parse agrees with the reference
  // ---------------------------------------------------------------------------

  /** Adding pairs one by one appends each key's values in order. */
  function AddAll(temp: Params, kvs: seq<(string, string)>): Params
    decreases |kvs|
  {
    if |kvs| == 0 then temp else AddAll(Add(temp, kvs[0].0, kvs[0].1), kvs[1..])
  }

  lemma KeysOfCons(kvs: seq<(string, string)>)
    requires |kvs| > 0
    ensures KeysOf(kvs) == {kvs[0].0} + KeysOf(kvs[1..])
  {
    forall k | k in KeysOf(kvs) ensures k in {kvs[0].0} + KeysOf(kvs[1..]) {
      var i :| 0 <= i < |kvs| && kvs[i].0 == k;
      if i > 0 {
        assert kvs[1..][i - 1].0 == k;
      }
    }
    forall k | k in KeysOf(kvs[1..]) ensures k in KeysOf(kvs) {
      var i :| 0 <= i < |kvs[1..]| && kvs[1..][i].0 == k;
      assert kvs[i + 1].0 == k;
    }
  }

  /** Regrouping a value list; kept apart so the fold's proof stays small. */
  lemma ConcatAssoc(a: seq<string>, b: seq<string>, c: seq<string>)
    ensures a + b + c == a + (b + c)
  {
  }

  /** One step of the fold: the first pair's value goes before the later ones. */
  lemma AddAllStep(temp: Params, kvs: seq<(string, string)>, k: string)
    requires |kvs| > 0
    ensures var head := if kvs[0].0 == k then [kvs[0].1] else [];
      && Get(Add(temp, kvs[0].0, kvs[0].1), k) == Get(temp, k) + head
      && ValuesOf(kvs, k) == head + ValuesOf(kvs[1..], k)
  {
  }

  lemma {:induction false} AddAllKeys(temp: Params, kvs: seq<(string, string)>)
    ensures AddAll(temp, kvs).Keys == temp.Keys + KeysOf(kvs)
    decreases |kvs|
  {
    if |kvs| > 0 {
      AddAllKeys(Add(temp, kvs[0].0, kvs[0].1), kvs[1..]);
      KeysOfCons(kvs);
    } else {
      assert KeysOf(kvs) == {};
    }
  }

  lemma {:induction false} AddAllValues(temp: Params, kvs: seq<(string, string)>, k: string)
    requires k in AddAll(temp, kvs)
    ensures AddAll(temp, kvs)[k] == Get(temp, k) + ValuesOf(kvs, k)
    decreases |kvs|
  {
    if |kvs| > 0 {
      var t' := Add(temp, kvs[0].0, kvs[0].1);
      AddAllValues(t', kvs[1..], k);
      AddAllStep(temp, kvs, k);
      var head := if kvs[0].0 == k then [kvs[0].1] else [];
      ConcatAssoc(Get(temp, k), head, ValuesOf(kvs[1..], k));
    }
  }

  /** Starting from the empty map, adding all pairs builds their grouping. */
  lemma AddAllFromEmpty(kvs: seq<(string, string)>)
    ensures AddAll(map[], kvs) == Group(kvs)
  {
    var m := AddAll(map[], kvs);
    AddAllKeys(map[], kvs);
    assert m.Keys == Group(kvs).Keys;
    forall k | k in m ensures m[k] == Group(kvs)[k] {
      AddAllValues(map[], kvs, k);
      assert Get(map[], k) == [];
    }
  }

  /** The loop ignores empty pieces wherever they sit. */
  lemma {:induction false} AccumulateSkipsEmpty(temp: Params, pairs: seq<string>, decode: Decoder)
    ensures Accumulate(temp, pairs, decode) == Accumulate(temp, NonEmpty(pairs), decode)
    decreases |pairs|
  {
    if |pairs| > 0 {
      var ne := NonEmpty(pairs);
      assert NonEmpty(pairs) == (if pairs[0] == [] then [] else [pairs[0]]) + NonEmpty(pairs[1..]);
      if pairs[0] == [] {
        assert ne == NonEmpty(pairs[1..]);
        AccumulateSkipsEmpty(temp, pairs[1..], decode);
      } else {
        assert ne[0] == pairs[0] && ne[1..] == NonEmpty(pairs[1..]);
        match DecodePair(pairs[0], decode)
        case Failure(_) =>
        case Success(kv) =>
          AccumulateSkipsEmpty(Add(temp, kv.0, kv.1), pairs[1..], decode);
      }
    }
  }

  /** Over non-empty segments, the interleaved loop equals decoding everything, then grouping. */
  lemma {:induction false} AccumulateStaged(temp: Params, segments: seq<string>, decode: Decoder)
    requires forall i :: 0 <= i < |segments| ==> segments[i] != []
    ensures Accumulate(temp, segments, decode) ==
      match DecodeAll(segments, decode)
      case Success(kvs) => Success(AddAll(temp, kvs))
      case Failure(e) => Failure(e)
    decreases |segments|
  {
    if |segments| > 0 {
      match DecodePair(segments[0], decode)
      case Failure(_) =>
      case Success(kv) =>
        AccumulateStaged(Add(temp, kv.0, kv.1), segments[1..], decode);
        match DecodeAll(segments[1..], decode)
        case Failure(_) =>
        case Success(rest) =>
          assert ([kv] + rest)[0] == kv && ([kv] + rest)[1..] == rest;
    }
  }

  lemma NonEmptyAllEmpty(pieces: seq<string>)
    requires forall i :: 0 <= i < |pieces| ==> pieces[i] == []
    ensures NonEmpty(pieces) == []
  {
  }

  /** Java's dropping of trailing empty pieces is invisible once empty pieces are skipped. */
  lemma SplitSegments(query: string)
    ensures NonEmpty(Split(query, '&')) == Segments(query)
  {
    var all := SplitAll(query, '&');
    if '&' !in query {
      SplitAllNoDelimiter(query, '&');
    } else {
      var kept := DropTrailingEmpty(all);
      assert all == kept + all[|kept|..];
      NonEmptyConcat(kept, all[|kept|..]);
      NonEmptyAllEmpty(all[|kept|..]);
    }
  }

  /**
   * The parser agrees with the reference: decode the non-empty segments left to right and
   * group the (raw key, decoded value) pairs; a failing decode is the parser's failure.
   */
  lemma ParseMatchesReference(query: string, decode: Decoder)
    ensures Parse(Some(query), decode) ==
      match DecodeAll(Segments(query), decode)
      case Success(kvs) => Success(Group(kvs))
      case Failure(e) => Failure(e)
  {
    var segs := Segments(query);
    if query == [] {
      assert SplitAll(query, '&') == [[]];
    } else {
      SplitSegments(query);
      AccumulateSkipsEmpty(map[], Split(query, '&'), decode);
    }
    assert forall i :: 0 <= i < |segs| ==> segs[i] in segs;
    AccumulateStaged(map[], segs, decode);
    match DecodeAll(segs, decode)
    case Failure(_) =>
    case Success(kvs) => AddAllFromEmpty(kvs);
  }

  // ---------------------------------------------------------------------------
  // Consequences
  // ---------------------------------------------------------------------------

  lemma {:induction false} ValuesOfPresent(kvs: seq<(string, string)>, k: string)
    requires k in KeysOf(kvs)
    ensures |ValuesOf(kvs, k)| > 0
    decreases |kvs|
  {
    KeysOfCons(kvs);
    if kvs[0].0 != k {
      ValuesOfPresent(kvs[1..], k);
    }
  }

  /** Every key of a parsed query has at least one value. */
  lemma ParseValuesNonEmpty(query: Option<string>, decode: Decoder)
    requires Parse(query, decode).Success?
    ensures forall k :: k in Parse(query, decode).value ==> |Parse(query, decode).value[k]| > 0
  {
    if query.Some? {
      ParseMatchesReference(query.value, decode);
      forall k | k in Parse(query, decode).value
        ensures |Parse(query, decode).value[k]| > 0
      {
        ValuesOfPresent(DecodeAll(Segments(query.value), decode).value, k);
      }
    }
  }

  /** The keys of a parsed query are exactly the raw texts before the first `=` of its segments. */
  lemma ParseKeysAreRaw(query: string, decode: Decoder)
    requires Parse(Some(query), decode).Success?
    ensures forall k :: k in Parse(Some(query), decode).value <==>
      exists i :: 0 <= i < |Segments(query)| && UpTo(Segments(query)[i], '=') == k
  {
    ParseMatchesReference(query, decode);
    var segs := Segments(query);
    var kvs := DecodeAll(segs, decode).value;
    assert Parse(Some(query), decode).value.Keys == KeysOf(kvs);
    DecodedKeysAreRaw(segs, decode);
  }

  /** The keys of the decoded pairs are exactly the raw texts before the first `=` of the segments. */
  lemma DecodedKeysAreRaw(segs: seq<string>, decode: Decoder)
    requires DecodeAll(segs, decode).Success?
    ensures forall k :: k in KeysOf(DecodeAll(segs, decode).value) <==>
      exists i :: 0 <= i < |segs| && UpTo(segs[i], '=') == k
  {
    var kvs := DecodeAll(segs, decode).value;
    forall i | 0 <= i < |segs|
      ensures kvs[i].0 == UpTo(segs[i], '=')
    {
      if '=' !in segs[i] {
        UpToIs(segs[i], '=', segs[i]);
      }
    }
    forall k | k in KeysOf(kvs)
      ensures exists i :: 0 <= i < |segs| && UpTo(segs[i], '=') == k
    {
      var i :| 0 <= i < |kvs| && kvs[i].0 == k;
      assert UpTo(segs[i], '=') == k;
    }
    forall k | exists i :: 0 <= i < |segs| && UpTo(segs[i], '=') == k
      ensures k in KeysOf(kvs)
    {
      var i :| 0 <= i < |segs| && UpTo(segs[i], '=') == k;
      assert kvs[i].0 == k;
    }
  }

  /** A parse fails exactly when some segment's value fails to decode; the leftmost failure is reported. */
  lemma ParseFailure(query: string, decode: Decoder)
    ensures Parse(Some(query), decode).Failure? <==>
      exists i :: 0 <= i < |Segments(query)| && DecodePair(Segments(query)[i], decode).Failure?
    ensures Parse(Some(query), decode).Failure? ==>
      && Parse(Some(query), decode).error != UnsupportedEncoding
      && exists i :: 0 <= i < |Segments(query)| &&
           FirstFailureAt(Segments(query), decode, i, Parse(Some(query), decode).error)
  {
    ParseMatchesReference(query, decode);
    var segs := Segments(query);
    var r := DecodeAll(segs, decode);
    if r.Failure? {
      var i :| 0 <= i < |segs| && FirstFailureAt(segs, decode, i, r.error);
      var key := UpTo(segs[i], '=');
      assert '=' in segs[i];
      assert r.error == DecodeUtf8(decode, segs[i][|key| + 1..]).error;
    }
  }

  /** The parsed map is empty exactly when the query has no non-empty segment. */
  lemma ParseEmptyIff(query: string, decode: Decoder)
    ensures Segments(query) == [] ==> Parse(Some(query), decode) == Success(map[])
    ensures Parse(Some(query), decode).Success? ==>
      (Parse(Some(query), decode).value == map[] <==> Segments(query) == [])
  {
    ParseMatchesReference(query, decode);
    var segs := Segments(query);
    var r := DecodeAll(segs, decode);
    if r.Success? {
      var kvs := r.value;
      if segs == [] {
        assert KeysOf(kvs) == {};
        assert Group(kvs) == map[];
      } else {
        assert kvs[0].0 in KeysOf(kvs);
        assert kvs[0].0 in Group(kvs);
      }
    }
  }

  // ---------------------------------------------------------------------------
  // Counting values
  // ---------------------------------------------------------------------------

  lemma {:induction false} TotalValuesRemove(m: Params, k: string)
    requires k in m
    ensures TotalValues(m) == |m[k]| + TotalValues(m - {k})
    decreases |m.Keys|
  {
    var x := AnyKey(m);
    if x != k {
      var mx := m - {x};
      var mk := m - {k};
      assert |mx.Keys| < |m.Keys| by { assert mx.Keys == m.Keys - {x}; }
      assert |mk.Keys| < |m.Keys| by { assert mk.Keys == m.Keys - {k}; }
      TotalValuesRemove(mx, k);
      TotalValuesRemove(mk, x);
      assert mx - {k} == mk - {x};
    }
  }

  /** Adding under `key` leaves every other key as it was. */
  lemma AddOthersUnchanged(m: Params, key: string, value: string)
    ensures Add(m, key, value) - {key} == m - {key}
  {
    var a := Add(m, key, value);
    forall k | k in a - {key}
      ensures k in m - {key} && (a - {key})[k] == (m - {key})[k]
    {
      assert a[k] == Get(m, k);
    }
  }

  lemma TotalValuesAdd(m: Params, key: string, value: string)
    ensures TotalValues(Add(m, key, value)) == TotalValues(m) + 1
  {
    var a := Add(m, key, value);
    TotalValuesRemove(a, key);
    AddOthersUnchanged(m, key, value);
    if key in m {
      TotalValuesRemove(m, key);
    } else {
      assert m - {key} == m;
    }
  }

  lemma {:induction false} TotalValuesAddAll(temp: Params, kvs: seq<(string, string)>)
    ensures TotalValues(AddAll(temp, kvs)) == TotalValues(temp) + |kvs|
    decreases |kvs|
  {
    if |kvs| > 0 {
      TotalValuesAdd(temp, kvs[0].0, kvs[0].1);
      TotalValuesAddAll(Add(temp, kvs[0].0, kvs[0].1), kvs[1..]);
    }
  }

  /** A parsed query holds exactly one value per non-empty segment. */
  lemma ParseCountsSegments(query: string, decode: Decoder)
    requires Parse(Some(query), decode).Success?
    ensures TotalValues(Parse(Some(query), decode).value) == |Segments(query)|
  {
    ParseMatchesReference(query, decode);
    var kvs := DecodeAll(Segments(query), decode).value;
    AddAllFromEmpty(kvs);
    TotalValuesAddAll(map[], kvs);
    assert TotalValues(map[]) == 0;
  }

  // ---------------------------------------------------------------------------
  // Empty segments
  // ---------------------------------------------------------------------------

  /** A doubled `&` leaves the same non-empty segments as a single one. */
  lemma SplitAllDoubled(x: string, y: string)
    ensures SplitAll(x + "&&" + y, '&') == SplitAll(x, '&') + ([[]] + SplitAll(y, '&'))
  {
    assert x + "&&" + y == x + ['&'] + ([] + ['&'] + y);
    SplitAllConcat(x, [] + ['&'] + y, '&');
    SplitAllConcat([], y, '&');
    assert SplitAll([], '&') == [[]];
  }

  lemma SegmentsDoubledAmpersand(x: string, y: string)
    ensures Segments(x + "&&" + y) == Segments(x + "&" + y)
  {
    SplitAllDoubled(x, y);
    assert x + "&" + y == x + ['&'] + y;
    SplitAllConcat(x, y, '&');
    NonEmptySkipsEmpty(SplitAll(x, '&'), SplitAll(y, '&'));
  }

  /** An empty piece between two runs of pieces is dropped. */
  lemma NonEmptySkipsEmpty(sx: seq<string>, sy: seq<string>)
    ensures NonEmpty(sx + ([[]] + sy)) == NonEmpty(sx + sy)
  {
    NonEmptyConcat(sx, [[]] + sy);
    NonEmptyConcat([[]], sy);
    NonEmptyConcat(sx, sy);
    assert NonEmpty([[]]) == [];
  }

  /** A doubled `&` parses like a single one. */
  lemma ParseDoubledAmpersand(x: string, y: string, decode: Decoder)
    ensures Parse(Some(x + "&&" + y), decode) == Parse(Some(x + "&" + y), decode)
  {
    SegmentsDoubledAmpersand(x, y);
    ParseMatchesReference(x + "&&" + y, decode);
    ParseMatchesReference(x + "&" + y, decode);
  }

  /** A query of nothing but `&` parses to the empty map. */
  lemma ParseOnlyAmpersands(n: nat, decode: Decoder)
    ensures Parse(Some(seq(n, _ => '&')), decode) == Success(map[])
  {
    var q := seq(n, _ => '&');
    assert forall i :: 0 <= i < |q| ==> q[i] == '&';
    assert !HasOtherFrom(q, '&', 0);
    SplitAllSomeNonEmpty(q, '&');
    var pieces := SplitAll(q, '&');
    NonEmptyAllEmpty(pieces);
    ParseEmptyIff(q, decode);
  }

  // ---------------------------------------------------------------------------
  // Round trip with the query text a form produces
  // ---------------------------------------------------------------------------

  /** `key=value` as it appears in a query. */
  function Field(key: string, value: string): string
  {
    key + "=" + value
  }

  /** The query text `k1=v1&k2=v2&…` for raw key/value pairs. */
  function EncodeQuery(pairs: seq<(string, string)>): string
  {
    Join(seq(|pairs|, i requires 0 <= i < |pairs| => Field(pairs[i].0, pairs[i].1)), '&')
  }

  /** Pairs whose keys hold no `&` or `=` and whose values hold no `&`. */
  predicate Encodable(pairs: seq<(string, string)>)
  {
    forall i :: 0 <= i < |pairs| ==> '&' !in pairs[i].0 && '=' !in pairs[i].0 && '&' !in pairs[i].1
  }

  /** The pairs with every value decoded. */
  function DecodedValues(pairs: seq<(string, string)>, decode: Decoder): seq<(string, string)>
    requires forall i :: 0 <= i < |pairs| ==> decode(pairs[i].1).Success?
  {
    seq(|pairs|, i requires 0 <= i < |pairs| => (pairs[i].0, decode(pairs[i].1).value))
  }

  lemma DecodeField(key: string, value: string, decode: Decoder)
    requires '=' !in key
    requires decode(value).Success?
    ensures DecodePair(Field(key, value), decode) == Success((key, decode(value).value))
  {
    var f := Field(key, value);
    assert f[|key|] == '=';
    UpToIs(f, '=', key);
    assert f[|key| + 1..] == value;
  }

  lemma NonEmptyAllPresent(pieces: seq<string>)
    requires forall i :: 0 <= i < |pieces| ==> pieces[i] != []
    ensures NonEmpty(pieces) == pieces
  {
    if |pieces| > 0 {
      NonEmptyAllPresent(pieces[1..]);
    }
  }

  /**
   * Parsing the text of encodable pairs gives back the pairs, values decoded, grouped by key in
   * order: the parser inverts the form encoding.
   */
  lemma ParseEncodeQuery(pairs: seq<(string, string)>, decode: Decoder)
    requires |pairs| >= 1 && Encodable(pairs)
    requires forall i :: 0 <= i < |pairs| ==> decode(pairs[i].1).Success?
    ensures DecodeAll(Segments(EncodeQuery(pairs)), decode) == Success(DecodedValues(pairs, decode))
    ensures Parse(Some(EncodeQuery(pairs)), decode) == Success(Group(DecodedValues(pairs, decode)))
  {
    var fields := seq(|pairs|, i requires 0 <= i < |pairs| => Field(pairs[i].0, pairs[i].1));
    var q := EncodeQuery(pairs);
    forall p | p in fields ensures '&' !in p {
      var i :| 0 <= i < |fields| && fields[i] == p;
      assert p == pairs[i].0 + ['='] + pairs[i].1;
    }
    SplitAllJoin(fields, '&');
    forall i | 0 <= i < |fields| ensures fields[i] != [] {
      assert fields[i][|pairs[i].0|] == '=';
    }
    NonEmptyAllPresent(fields);
    assert Segments(q) == fields;
    var expected := DecodedValues(pairs, decode);
    forall i | 0 <= i < |fields| ensures DecodePair(fields[i], decode) == Success(expected[i]) {
      DecodeField(pairs[i].0, pairs[i].1, decode);
    }
    DecodeAllSucceeds(fields, expected, decode);
    ParseMatchesReference(q, decode);
  }

  lemma {:induction false} DecodeAllSucceeds(segments: seq<string>, kvs: seq<(string, string)>, decode: Decoder)
    requires |segments| == |kvs|
    requires forall i :: 0 <= i < |segments| ==> DecodePair(segments[i], decode) == Success(kvs[i])
    ensures DecodeAll(segments, decode) == Success(kvs)
    decreases |segments|
  {
    if |segments| > 0 {
      forall i | 0 <= i < |segments| - 1
        ensures DecodePair(segments[1..][i], decode) == Success(kvs[1..][i])
      {
        assert segments[1..][i] == segments[i + 1] && kvs[1..][i] == kvs[i + 1];
      }
      DecodeAllSucceeds(segments[1..], kvs[1..], decode);
      DecodeAllStep(segments, decode);
      assert kvs == [kvs[0]] + kvs[1..];
    }
  }

  /** When the first segment and all the others decode, the results are the first pair then the rest. */
  lemma DecodeAllStep(segments: seq<string>, decode: Decoder)
    requires |segments| > 0 && DecodePair(segments[0], decode).Success?
    requires DecodeAll(segments[1..], decode).Success?
    ensures DecodeAll(segments, decode) ==
      Success([DecodePair(segments[0], decode).value] + DecodeAll(segments[1..], decode).value)
  {
  }

  lemma GroupTwo(a: (string, string), b: (string, string))
    ensures Group([a, b]) ==
      if a.0 == b.0 then map[a.0 := [a.1, b.1]] else map[a.0 := [a.1], b.0 := [b.1]]
  {
    var kvs := [a, b];
    assert kvs[1..] == [b];
    assert kvs[1..][1..] == [];
    KeysOfCons(kvs);
    KeysOfCons(kvs[1..]);
    assert KeysOf(kvs[1..][1..]) == {};
    assert KeysOf(kvs) == {a.0, b.0};
    assert ValuesOf(kvs[1..][1..], a.0) == [] && ValuesOf(kvs[1..][1..], b.0) == [];
    assert ValuesOf(kvs, a.0) == [a.1] + (if b.0 == a.0 then [b.1] else []);
    assert ValuesOf(kvs, b.0) == (if a.0 == b.0 then [a.1] else []) + [b.1];
    var g := Group(kvs);
    if a.0 == b.0 {
      assert g.Keys == {a.0};
      assert g[a.0] == [a.1, b.1];
      assert g == map[a.0 := [a.1, b.1]];
    } else {
      assert g.Keys == {a.0, b.0};
      assert g[a.0] == [a.1] && g[b.0] == [b.1];
      assert g == map[a.0 := [a.1], b.0 := [b.1]];
    }
  }

  lemma EncodeTwo(k1: string, v1: string, k2: string, v2: string)
    ensures EncodeQuery([(k1, v1), (k2, v2)]) == Field(k1, v1) + "&" + Field(k2, v2)
  {
    var pairs := [(k1, v1), (k2, v2)];
    var fields := seq(|pairs|, i requires 0 <= i < |pairs| => Field(pairs[i].0, pairs[i].1));
    assert fields == [Field(k1, v1), Field(k2, v2)];
    assert fields[1..] == [Field(k2, v2)];
    assert Join(fields[1..], '&') == Field(k2, v2);
    assert Join(fields, '&') == Field(k1, v1) + ['&'] + Field(k2, v2);
  }

  /** `k1=v1&k2=v2` gives `[v1]` under `k1` and `[v2]` under `k2`, or both in order under a shared key. */
  lemma ParseTwoFields(k1: string, v1: string, k2: string, v2: string, decode: Decoder)
    requires Encodable([(k1, v1), (k2, v2)])
    requires decode(v1).Success? && decode(v2).Success?
    ensures var d1 := decode(v1).value; var d2 := decode(v2).value;
      Parse(Some(Field(k1, v1) + "&" + Field(k2, v2)), decode) ==
        Success(if k1 == k2 then map[k1 := [d1, d2]] else map[k1 := [d1], k2 := [d2]])
  {
    var pairs := [(k1, v1), (k2, v2)];
    ParseEncodeQuery(pairs, decode);
    EncodeTwo(k1, v1, k2, v2);
    var kvs := DecodedValues(pairs, decode);
    assert kvs == [(k1, decode(v1).value), (k2, decode(v2).value)];
    GroupTwo(kvs[0], kvs[1]);
  }
}
