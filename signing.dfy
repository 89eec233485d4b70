/**
 * Canonicalisation of a moderation request (generate.py:139-165), after the
 * signature scheme of Alibaba Cloud's RPC API: the parameters sorted by key,
 * each written `encode_a(k)=encode_a(v)`, joined with `&`, and the string to sign
 * `POST&encode_a("/")&encode_a(query)`.
 */
module Signing {
  import opened Wrappers
  import opened Encoding

  type Param = (string, string)

  /** Python's `<` on `str`: lexicographic by code point, a proper prefix first. */
  predicate Less(a: string, b: string)
    decreases |a|
  {
    if a == [] then b != []
    else if b == [] then false
    else if a[0] != b[0] then a[0] < b[0]
    else Less(a[1..], b[1..])
  }

  lemma {:induction false} LessIrreflexive(a: string)
    ensures !Less(a, a)
    decreases |a|
  {
    if a != [] {
      LessIrreflexive(a[1..]);
    }
  }

  lemma {:induction false} LessTransitive(a: string, b: string, c: string)
    requires Less(a, b) && Less(b, c)
    ensures Less(a, c)
    decreases |a|
  {
    if a != [] && a[0] == b[0] && b[0] == c[0] {
      LessTransitive(a[1..], b[1..], c[1..]);
    }
  }

  lemma {:induction false} LessTotal(a: string, b: string)
    requires a != b
    ensures Less(a, b) || Less(b, a)
    decreases |a|
  {
    if a != [] && b != [] && a[0] == b[0] {
      assert a == [a[0]] + a[1..] && b == [b[0]] + b[1..];
      LessTotal(a[1..], b[1..]);
    }
  }

  lemma LessAsymmetric(a: string, b: string)
    requires Less(a, b)
    ensures !Less(b, a)
  {
    if Less(b, a) {
      LessTransitive(a, b, a);
      LessIrreflexive(a);
    }
  }

  /** No key occurs twice (the parameters come from a `dict`). */
  predicate DistinctKeys(ps: seq<Param>)
  {
    forall i, j :: 0 <= i < j < |ps| ==> ps[i].0 != ps[j].0
  }

  predicate StrictlyAscending(ps: seq<Param>)
  {
    forall i, j :: 0 <= i < j < |ps| ==> Less(ps[i].0, ps[j].0)
  }

  function Insert(x: Param, s: seq<Param>): (r: seq<Param>)
  {
    if s == [] then [x]
    else if Less(s[0].0, x.0) then [s[0]] + Insert(x, s[1..])
    else [x] + s
  }

  /** `sorted(params.items())`; with distinct keys, tuples compare by key alone. */
  function SortByKey(ps: seq<Param>): (r: seq<Param>)
  {
    if ps == [] then [] else Insert(ps[0], SortByKey(ps[1..]))
  }

  lemma {:induction false} InsertPermutes(x: Param, s: seq<Param>)
    ensures multiset(Insert(x, s)) == multiset(s) + multiset{x}
    decreases |s|
  {
    if s != [] && Less(s[0].0, x.0) {
      InsertPermutes(x, s[1..]);
      assert s == [s[0]] + s[1..];
    }
  }

  lemma {:induction false} InsertAscending(x: Param, s: seq<Param>)
    requires StrictlyAscending(s)
    requires forall i :: 0 <= i < |s| ==> s[i].0 != x.0
    ensures StrictlyAscending(Insert(x, s))
    decreases |s|
  {
    if s == [] {
    } else if Less(s[0].0, x.0) {
      InsertAscending(x, s[1..]);
      InsertPermutes(x, s[1..]);
      var r := Insert(x, s[1..]);
      forall j | 0 <= j < |r| ensures Less(s[0].0, r[j].0) {
        assert r[j] in multiset(r);
        if r[j] != x {
          assert r[j] in multiset(s[1..]);
          var k :| 0 <= k < |s[1..]| && s[1..][k] == r[j];
          assert s[k + 1] == r[j];
        }
      }
    } else {
      LessTotal(x.0, s[0].0);
      forall j | 1 <= j < |s| ensures Less(x.0, s[j].0) {
        LessTransitive(x.0, s[0].0, s[j].0);
      }
    }
  }

  /** The parameters in `sorted` order: a permutation of them, strictly ascending by key. */
  lemma {:induction false} SortByKeySpec(ps: seq<Param>)
    requires DistinctKeys(ps)
    ensures multiset(SortByKey(ps)) == multiset(ps)
    ensures StrictlyAscending(SortByKey(ps))
    decreases |ps|
  {
    if ps != [] {
      var rest := SortByKey(ps[1..]);
      SortByKeySpec(ps[1..]);
      InsertPermutes(ps[0], rest);
      assert ps == [ps[0]] + ps[1..];
      forall i | 0 <= i < |rest| ensures rest[i].0 != ps[0].0 {
        assert rest[i] in multiset(ps[1..]);
        var k :| 0 <= k < |ps[1..]| && ps[1..][k] == rest[i];
        assert ps[k + 1] == rest[i];
      }
      InsertAscending(ps[0], rest);
    }
  }

  lemma AscendingTail(a: seq<Param>)
    requires StrictlyAscending(a) && a != []
    ensures StrictlyAscending(a[1..])
  {
    forall i, j | 0 <= i < j < |a| - 1 ensures Less(a[1..][i].0, a[1..][j].0) {
      assert a[1..][i] == a[i + 1] && a[1..][j] == a[j + 1];
    }
  }

  lemma AscendingHeads(a: seq<Param>, b: seq<Param>)
    requires StrictlyAscending(a) && StrictlyAscending(b)
    requires multiset(a) == multiset(b) && a != []
    ensures b != [] && a[0] == b[0]
  {
    assert a[0] in multiset(b);
    assert b[0] in multiset(a);
    var i :| 0 <= i < |a| && a[i] == b[0];
    var j :| 0 <= j < |b| && b[j] == a[0];
    if i != 0 && j != 0 {
      assert Less(a[0].0, a[i].0) && Less(b[0].0, b[j].0);
      LessAsymmetric(a[0].0, a[i].0);
    }
  }

  /** A strictly ascending arrangement is unique, so any correct sort gives `SortByKey`'s order. */
  lemma {:induction false} AscendingUnique(a: seq<Param>, b: seq<Param>)
    requires StrictlyAscending(a) && StrictlyAscending(b)
    requires multiset(a) == multiset(b)
    ensures a == b
    decreases |a|
  {
    if a != [] {
      AscendingHeads(a, b);
      assert a == [a[0]] + a[1..] && b == [b[0]] + b[1..];
      assert multiset(a[1..]) == multiset(a) - multiset{a[0]};
      assert multiset(b[1..]) == multiset(b) - multiset{b[0]};
      AscendingTail(a);
      AscendingTail(b);
      AscendingUnique(a[1..], b[1..]);
    } else {
      assert |b| == |multiset(b)|;
    }
  }

  /** `encode_a(k)=encode_a(v)`. */
  function PairText(p: Param): (r: string)
  {
    EncodeA(p.0) + "=" + EncodeA(p.1)
  }

  function PairTexts(ps: seq<Param>): (r: seq<string>)
    ensures |r| == |ps|
  {
    if ps == [] then [] else [PairText(ps[0])] + PairTexts(ps[1..])
  }

  /** `sep.join(parts)`. */
  function Join(parts: seq<string>, sep: char): (r: string)
  {
    if parts == [] then []
    else if |parts| == 1 then parts[0]
    else parts[0] + [sep] + Join(parts[1..], sep)
  }

  /** `s.split(sep)`: always at least one piece. */
  function Split(s: string, sep: char): (r: seq<string>)
    ensures r != []
  {
    if s == [] then [[]]
    else
      var rest := Split(s[1..], sep);
      if s[0] == sep then [[]] + rest else [[s[0]] + rest[0]] + rest[1..]
  }

  /** The canonicalised query string (generate.py:152, 162-164). */
  function CanonicalQuery(ps: seq<Param>): (r: string)
  {
    Join(PairTexts(SortByKey(ps)), '&')
  }

  /** The string to sign (generate.py:165). */
  function StringToSign(ps: seq<Param>): (r: string)
  {
    "POST&" + EncodeA("/") + "&" + EncodeA(CanonicalQuery(ps))
  }

  /** Reads a canonical query back into its parameters. */
  function ParsePair(piece: string): (r: Option<Param>)
  {
    var kv := Split(piece, '=');
    if |kv| != 2 then None
    else match (DecodeA(kv[0]), DecodeA(kv[1]))
      case (Some(k), Some(v)) => Some((k, v))
      case _ => None
  }

  function ParsePairs(pieces: seq<string>): (r: Option<seq<Param>>)
  {
    if pieces == [] then Some([])
    else match (ParsePair(pieces[0]), ParsePairs(pieces[1..]))
      case (Some(p), Some(rest)) => Some([p] + rest)
      case _ => None
  }

  function ParseQuery(q: string): (r: Option<seq<Param>>)
  {
    ParsePairs(Split(q, '&'))
  }

  lemma {:induction false} SplitWithoutSep(p: string, sep: char)
    requires sep !in p
    ensures Split(p, sep) == [p]
    decreases |p|
  {
    if p != [] {
      SplitWithoutSep(p[1..], sep);
      assert [p[0]] + p[1..] == p;
    }
  }

  lemma {:induction false} SplitAtSep(p: string, sep: char, rest: string)
    requires sep !in p
    ensures Split(p + [sep] + rest, sep) == [p] + Split(rest, sep)
    decreases |p|
  {
    var s := p + [sep] + rest;
    if p == [] {
      assert s[1..] == rest;
    } else {
      SplitAtSep(p[1..], sep, rest);
      assert s[1..] == p[1..] + [sep] + rest;
      assert [p[0]] + p[1..] == p;
    }
  }

  /** Splitting undoes joining when no part holds the separator. */
  lemma {:induction false} SplitJoin(parts: seq<string>, sep: char)
    requires parts != []
    requires forall k :: 0 <= k < |parts| ==> sep !in parts[k]
    ensures Split(Join(parts, sep), sep) == parts
    decreases |parts|
  {
    if |parts| == 1 {
      SplitWithoutSep(parts[0], sep);
    } else {
      SplitJoin(parts[1..], sep);
      SplitAtSep(parts[0], sep, Join(parts[1..], sep));
      assert [parts[0]] + parts[1..] == parts;
    }
  }

  lemma PairTextSpec(p: Param)
    ensures '&' !in PairText(p)
    ensures ParsePair(PairText(p)) == Some(p)
  {
    EncodeASpec(p.0, []);
    EncodeASpec(p.1, []);
    assert '=' !in EncodeA(p.0) && '=' !in EncodeA(p.1) by {
      assert !EncodedChar('=');
    }
    assert !EncodedChar('&');
    SplitAtSep(EncodeA(p.0), '=', EncodeA(p.1));
    SplitWithoutSep(EncodeA(p.1), '=');
  }

  lemma {:induction false} PairTextsSpec(ps: seq<Param>)
    ensures forall k :: 0 <= k < |ps| ==> PairTexts(ps)[k] == PairText(ps[k])
    ensures ParsePairs(PairTexts(ps)) == Some(ps)
    decreases |ps|
  {
    if ps != [] {
      PairTextsSpec(ps[1..]);
      PairTextSpec(ps[0]);
      assert PairTexts(ps)[1..] == PairTexts(ps[1..]);
      assert [ps[0]] + ps[1..] == ps;
    }
  }

  /**
   * The canonical query lists every parameter once, in strictly ascending key
   * order, as `encode_a(k)=encode_a(v)` joined by `&`: reading it back gives the
   * sorted parameters themselves.
   */
  lemma CanonicalQuerySpec(ps: seq<Param>)
    requires ps != [] && DistinctKeys(ps)
    ensures ParseQuery(CanonicalQuery(ps)) == Some(SortByKey(ps))
    ensures StrictlyAscending(SortByKey(ps)) && multiset(SortByKey(ps)) == multiset(ps)
  {
    var sorted := SortByKey(ps);
    SortByKeySpec(ps);
    assert sorted != [] by {
      assert ps[0] in multiset(ps);
    }
    PairTextsSpec(sorted);
    forall k | 0 <= k < |sorted| ensures '&' !in PairTexts(sorted)[k] {
      PairTextSpec(sorted[k]);
    }
    SplitJoin(PairTexts(sorted), '&');
  }

  lemma EncodeASlash()
    ensures EncodeA("/") == "%2F"
  {
    EncodeAOfChar('/');
    assert "/" == ['/'];
  }

  /** The string to sign starts with `POST&%2F&`, and the rest encodes the canonical query recoverably. */
  lemma StringToSignSpec(ps: seq<Param>)
    ensures StringToSign(ps) == "POST&%2F&" + EncodeA(CanonicalQuery(ps))
    ensures DecodeA(StringToSign(ps)[9..]) == Some(CanonicalQuery(ps))
  {
    EncodeASlash();
    EncodeARoundTrip(CanonicalQuery(ps));
    assert StringToSign(ps)[9..] == EncodeA(CanonicalQuery(ps));
  }

  /**
   * `params_a` in its insertion order (generate.py:139-150): fixed format, API
   * version, signature method and version, action and service, and the caller's
   * key id, timestamp, nonce and JSON-encoded service parameters.
   */
  function RequestParams(keyId: string, timestamp: string, nonce: string, serviceParameters: string): (r: seq<Param>)
  {
    [ ("Format", "JSON"),
      ("Version", "2022-03-02"),
      ("AccessKeyId", keyId),
      ("SignatureMethod", "HMAC-SHA1"),
      ("Timestamp", timestamp),
      ("SignatureVersion", "1.0"),
      ("SignatureNonce", nonce),
      ("Action", "TextModerationPlus"),
      ("Service", "comment_detection_pro"),
      ("ServiceParameters", serviceParameters) ]
  }

  /** The keys of `params_a` are distinct, and none of them is `Signature`. */
  lemma RequestParamsDistinct(keyId: string, timestamp: string, nonce: string, serviceParameters: string)
    ensures DistinctKeys(RequestParams(keyId, timestamp, nonce, serviceParameters))
    ensures forall i :: 0 <= i < 10 ==> RequestParams(keyId, timestamp, nonce, serviceParameters)[i].0 != "Signature"
  {
    var ps := RequestParams(keyId, timestamp, nonce, serviceParameters);
    assert |ps[0].0| == 6 && |ps[1].0| == 7 && |ps[2].0| == 11 && |ps[3].0| == 15 && |ps[4].0| == 9;
    assert |ps[5].0| == 16 && |ps[6].0| == 14 && |ps[7].0| == 6 && |ps[8].0| == 7 && |ps[9].0| == 17;
    assert ps[0].0[0] == 'F' && ps[7].0[0] == 'A' && ps[1].0[0] == 'V' && ps[8].0[0] == 'S';
  }

  /** Sorting keeps exactly the parameters it is given. */
  lemma SortByKeyMembers(ps: seq<Param>)
    requires DistinctKeys(ps)
    ensures forall p :: p in SortByKey(ps) <==> p in ps
  {
    SortByKeySpec(ps);
    forall p ensures p in SortByKey(ps) <==> p in ps {
      assert p in SortByKey(ps) <==> p in multiset(SortByKey(ps));
      assert p in ps <==> p in multiset(ps);
    }
  }

  /** `Signature` is never among the signed parameters; it is added only after signing. */
  lemma SignatureNotSigned(keyId: string, timestamp: string, nonce: string, serviceParameters: string)
    ensures forall p :: p in SortByKey(RequestParams(keyId, timestamp, nonce, serviceParameters)) ==> p.0 != "Signature"
  {
    var ps := RequestParams(keyId, timestamp, nonce, serviceParameters);
    RequestParamsDistinct(keyId, timestamp, nonce, serviceParameters);
    SortByKeyMembers(ps);
  }

  /** The parameters actually posted: the signed ones plus `Signature` (generate.py:173). */
  function SignedParams(ps: seq<Param>, signature: string): (r: seq<Param>)
  {
    ps + [("Signature", signature)]
  }
}
