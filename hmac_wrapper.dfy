/** The MAC engine and the request verifier: a callback's query is reduced to a canonical
    message, whose HMAC-SHA256 in lowercase hex must equal the value of its `hmac` pair. */
module HmacWrapper {
  import opened Text
  import opened Encoding
  import opened KeySort
  import opened App

  const DIGEST_LENGTH := 32

  type Digest = d: Bytes | |d| == DIGEST_LENGTH witness seq(DIGEST_LENGTH, i => 0)

  /** HMAC-SHA256 (RFC 2104 over the SHA-256 of FIPS 180-4) as a function of key and data.
      Nothing of its internals is modelled beyond its 32-byte output; it accepts keys of any
      length, so it is total. */
  type Mac = (Bytes, Bytes) -> Digest

  /** "hmac", the key of the pair that carries the claimed MAC. */
  const HMAC_KEY: Bytes := ['h' as int, 'm' as int, 'a' as int, 'c' as int]

  const AMPERSAND: Bytes := ['&' as int]

  const EQUALS: Bytes := ['=' as int]

  // ---------------------------------------------------------------- MAC engine

  /** The MAC of `data` keyed by the application's secret. */
  function GenerateHmacBytes(app: ShopifyApp, mac: Mac, data: Bytes): Digest
  {
    mac(app.credentials.secret, data)
  }

  /** 64 lowercase hex digits that decode to the 32 MAC bytes, and the only text that does. */
  function GenerateHmacHex(app: ShopifyApp, mac: Mac, data: Bytes): (r: Bytes)
    ensures |r| == 2 * DIGEST_LENGTH
    ensures forall i | 0 <= i < |r| :: IsHexDigit(r[i])
    ensures HexDecode(r) == Some(GenerateHmacBytes(app, mac, data))
    ensures forall s :: HexDecode(s) == Some(GenerateHmacBytes(app, mac, data)) ==> s == r
  {
    var d := GenerateHmacBytes(app, mac, data);
    HexRoundTrip(d);
    HexUnique(d);
    HexEncode(d)
  }

  lemma HexUnique(d: Bytes)
    ensures forall s :: HexDecode(s) == Some(d) ==> s == HexEncode(d)
  {
    forall s | HexDecode(s) == Some(d)
      ensures s == HexEncode(d)
    {
      HexDecodeExact(s, d);
    }
  }

  /** 44 characters: 43 base64 digits and a single `=`, decoding to the 32 MAC bytes, and the
      only text that does. */
  function GenerateHmacBase64(app: ShopifyApp, mac: Mac, data: Bytes): (r: Bytes)
    ensures |r| == 44
    ensures forall i | 0 <= i < 43 :: IsBase64Digit(r[i])
    ensures r[43] == PAD && r[42] != PAD
    ensures Base64Decode(r) == Some(GenerateHmacBytes(app, mac, data))
    ensures forall s :: Base64Decode(s) == Some(GenerateHmacBytes(app, mac, data)) ==> s == r
  {
    var d := GenerateHmacBytes(app, mac, data);
    DigestBase64Shape(d);
    Base64RoundTrip(d);
    Base64Unique(d);
    var r := Base64Encode(d);
    assert IsBase64Digit(r[42]) && !IsBase64Digit(PAD);
    r
  }

  lemma Base64Unique(d: Bytes)
    ensures forall s :: Base64Decode(s) == Some(d) ==> s == Base64Encode(d)
  {
    forall s | Base64Decode(s) == Some(d)
      ensures s == Base64Encode(d)
    {
      Base64DecodeExact(s, d);
    }
  }

  /** A digest encodes to 43 digits and one `=`. */
  lemma DigestBase64Shape(d: Digest)
    ensures |Base64Encode(d)| == 44 && Padded(Base64Encode(d), 1)
  {
    var n := |d|;
    assert n == 32;
    assert (3 - n % 3) % 3 == 1;
    Base64Shape(d);
  }

  // ---------------------------------------------------------------- specification

  /** The pairs that are signed: every pair whose key is not exactly "hmac", in input order. */
  function Signed(ps: seq<QueryParam>): seq<QueryParam>
  {
    if ps == [] then []
    else
      var last := ps[|ps| - 1];
      Signed(ps[..|ps| - 1]) + (if last.key == HMAC_KEY then [] else [last])
  }

  /** The claimed MAC: each "hmac" pair overwrites the previous one, so it is the value of
      the last such pair, and empty when there is none. */
  function Claimed(ps: seq<QueryParam>): Bytes
  {
    if ps == [] then []
    else if ps[|ps| - 1].key == HMAC_KEY then ps[|ps| - 1].value
    else Claimed(ps[..|ps| - 1])
  }

  function Render(p: QueryParam): Bytes
  {
    p.key + EQUALS + p.value
  }

  function Renders(ps: seq<QueryParam>): (r: seq<Bytes>)
    ensures |r| == |ps|
  {
    seq(|ps|, i requires 0 <= i < |ps| => Render(ps[i]))
  }

  /** The bytes the platform signs: the pairs ordered by key (stably), each as `key=value`,
      joined with `&`. */
  function CanonicalMessage(signed: seq<QueryParam>): Bytes
  {
    Join(Renders(SortByKey(signed)), AMPERSAND)
  }

  /** The signature the platform attaches to a query. */
  function Signature(app: ShopifyApp, mac: Mac, ps: seq<QueryParam>): Bytes
  {
    GenerateHmacHex(app, mac, CanonicalMessage(Signed(ps)))
  }

  /** A query is accepted when something besides "hmac" is signed and the claimed value is
      the signature, byte for byte. */
  predicate Verdict(app: ShopifyApp, mac: Mac, ps: seq<QueryParam>)
  {
    Signed(ps) != [] && Signature(app, mac, ps) == Claimed(ps)
  }

  // ---------------------------------------------------------------- request verifier

  /** The fold of `valid_hmac` over the query: an "hmac" pair overwrites the claimed value,
      every other pair is pushed onto the message. */
  method Partition(queryParams: seq<QueryParam>) returns (hmac: Bytes, message: seq<QueryParam>)
    ensures hmac == Claimed(queryParams)
    ensures message == Signed(queryParams)
  {
    hmac, message := [], [];
    var i := 0;
    while i < |queryParams|
      invariant 0 <= i <= |queryParams|
      invariant hmac == Claimed(queryParams[..i])
      invariant message == Signed(queryParams[..i])
    {
      var item := queryParams[i];
      assert queryParams[..i + 1][..i] == queryParams[..i];
      if item.key == HMAC_KEY {
        hmac := item.value;
      } else {
        message := message + [item];
      }
      i := i + 1;
    }
    assert queryParams[..|queryParams|] == queryParams;
  }

  /** The fold that renders each pair as `&key=value` onto an empty string, followed by the
      slice that drops the first byte: the pairs joined with `&`. */
  method JoinPairs(message: seq<QueryParam>) returns (messageStr: Bytes)
    requires message != []
    ensures messageStr == Join(Renders(message), AMPERSAND)
  {
    var acc: Bytes := [];
    var j := 0;
    while j < |message|
      invariant 0 <= j <= |message|
      invariant acc == Prefixed(Renders(message[..j]))
    {
      var item := message[j];
      assert Renders(message[..j + 1]) == Renders(message[..j]) + [Render(item)];
      FoldStep(acc, Renders(message[..j]), Render(item));
      acc := acc + AMPERSAND + item.key + EQUALS + item.value;
      j := j + 1;
    }
    assert message[..|message|] == message;
    messageStr := acc[1..];
  }

  /** `valid_hmac`: partition the query, fail closed when nothing is left to sign, sort by
      key, join, and compare the hex MAC of the result with the claimed value. */
  method ValidHmac(app: ShopifyApp, mac: Mac, queryParams: seq<QueryParam>) returns (valid: bool)
    ensures valid == Verdict(app, mac, queryParams)
  {
    var hmac, message := Partition(queryParams);
    if |message| == 0 {
      return false;
    }
    message := SortByKey(message);
    var messageStr := JoinPairs(message);
    var encoded := GenerateHmacHex(app, mac, messageStr);
    valid := encoded == hmac;
  }

  /** The fold's accumulator after some pieces: each piece preceded by `&`. */
  function Prefixed(pieces: seq<Bytes>): Bytes
  {
    if pieces == [] then [] else AMPERSAND + Join(pieces, AMPERSAND)
  }

  /** One step of the fold `acc + "&" + key + "=" + val`. */
  lemma FoldStep(acc: Bytes, pieces: seq<Bytes>, piece: Bytes)
    requires acc == Prefixed(pieces)
    ensures acc + AMPERSAND + piece == Prefixed(pieces + [piece])
  {
    if pieces == [] {
      assert Join(pieces + [piece], AMPERSAND) == piece;
    } else {
      JoinSnoc(pieces, piece, AMPERSAND);
    }
  }

  // ---------------------------------------------------------------- properties

  /** The signed pairs of a concatenation are those of its parts, concatenated: with the
      definition on one pair this says every "hmac" pair is dropped and every other pair kept,
      in input order. */
  lemma {:induction false} SignedAppend(ps: seq<QueryParam>, qs: seq<QueryParam>)
    ensures Signed(ps + qs) == Signed(ps) + Signed(qs)
  {
    if qs == [] {
      assert ps + qs == ps;
    } else {
      var n := |qs| - 1;
      assert (ps + qs)[..|ps + qs| - 1] == ps + qs[..n];
      SignedAppend(ps, qs[..n]);
    }
  }

  /** Counted pair by pair: a pair occurs among the signed ones as often as in the query,
      unless its key is "hmac", when it does not occur at all. */
  lemma {:induction false} SignedCount(ps: seq<QueryParam>)
    ensures forall p :: multiset(Signed(ps))[p] == if p.key == HMAC_KEY then 0 else multiset(ps)[p]
  {
    if ps != [] {
      var n := |ps| - 1;
      SignedCount(ps[..n]);
      assert ps == ps[..n] + [ps[n]];
    }
  }

  /** Nothing is signed exactly when every key is "hmac". */
  lemma {:induction false} SignedEmpty(ps: seq<QueryParam>)
    ensures Signed(ps) == [] <==> forall i | 0 <= i < |ps| :: ps[i].key == HMAC_KEY
  {
    if ps != [] {
      var n := |ps| - 1;
      SignedEmpty(ps[..n]);
      assert forall i | 0 <= i < n :: ps[..n][i] == ps[i];
    }
  }

  /** The claimed value is that of the last "hmac" pair, or empty when there is none. */
  lemma {:induction false} ClaimedIsLast(ps: seq<QueryParam>)
    ensures (forall i | 0 <= i < |ps| :: ps[i].key != HMAC_KEY) ==> Claimed(ps) == []
    ensures (exists i | 0 <= i < |ps| :: ps[i].key == HMAC_KEY) ==>
      exists i | 0 <= i < |ps| :: ps[i].key == HMAC_KEY && Claimed(ps) == ps[i].value &&
        forall j | i < j < |ps| :: ps[j].key != HMAC_KEY
  {
    if ps != [] {
      var n := |ps| - 1;
      var init := ps[..n];
      if ps[n].key == HMAC_KEY {
        assert Claimed(ps) == ps[n].value;
      } else {
        ClaimedIsLast(init);
        assert Claimed(ps) == Claimed(init);
        if exists k | 0 <= k < |ps| :: ps[k].key == HMAC_KEY {
          var k :| 0 <= k < |ps| && ps[k].key == HMAC_KEY;
          assert init[k] == ps[k];
          var i :| 0 <= i < n && init[i].key == HMAC_KEY && Claimed(init) == init[i].value &&
            forall j | i < j < n :: init[j].key != HMAC_KEY;
          forall j | i < j < |ps|
            ensures ps[j].key != HMAC_KEY
          {
            if j < n { assert init[j] == ps[j]; }
          }
          assert ps[i] == init[i];
        } else {
          forall i | 0 <= i < n
            ensures init[i].key != HMAC_KEY
          {
            assert init[i] == ps[i];
          }
        }
      }
    }
  }

  /** Fail closed: a query without an "hmac" pair, or with nothing but "hmac" pairs, is
      rejected whatever the MAC. */
  lemma FailClosed(app: ShopifyApp, mac: Mac, ps: seq<QueryParam>)
    requires (forall i | 0 <= i < |ps| :: ps[i].key != HMAC_KEY)
          || (forall i | 0 <= i < |ps| :: ps[i].key == HMAC_KEY)
    ensures !Verdict(app, mac, ps)
  {
    ClaimedIsLast(ps);
    SignedEmpty(ps);
  }

  /** Exactness: a query is accepted exactly when something is signed and its claimed value
      hex-decodes to the MAC of the canonical message. Since lowercase hex is the only accepted
      spelling, an upper-case or otherwise re-spelled digest is rejected. */
  lemma VerdictExact(app: ShopifyApp, mac: Mac, ps: seq<QueryParam>)
    ensures Verdict(app, mac, ps) <==>
      Signed(ps) != [] &&
      HexDecode(Claimed(ps)) == Some(GenerateHmacBytes(app, mac, CanonicalMessage(Signed(ps))))
  {
    HexDecodeExact(Claimed(ps), GenerateHmacBytes(app, mac, CanonicalMessage(Signed(ps))));
  }

  /** Pairs without "hmac" keys after the last "hmac" pair leave the claimed value alone. */
  lemma {:induction false} ClaimedAfter(ps: seq<QueryParam>, post: seq<QueryParam>)
    requires forall i | 0 <= i < |post| :: post[i].key != HMAC_KEY
    ensures Claimed(ps + post) == Claimed(ps)
  {
    if post == [] {
      assert ps + post == ps;
    } else {
      var n := |post| - 1;
      assert (ps + post)[..|ps + post| - 1] == ps + post[..n];
      ClaimedAfter(ps, post[..n]);
    }
  }

  /** An "hmac" pair inserted anywhere into a query without one is what it claims, and is
      all that is not signed. */
  lemma WithSignature(pre: seq<QueryParam>, v: Bytes, post: seq<QueryParam>)
    requires forall i | 0 <= i < |pre| :: pre[i].key != HMAC_KEY
    requires forall i | 0 <= i < |post| :: post[i].key != HMAC_KEY
    ensures Signed(pre + [QueryParam(HMAC_KEY, v)] + post) == pre + post
    ensures Claimed(pre + [QueryParam(HMAC_KEY, v)] + post) == v
  {
    var sig := QueryParam(HMAC_KEY, v);
    var front := pre + [sig];
    assert Signed(front) == pre by {
      SignedAppend(pre, [sig]);
      SignedOfSignature(sig);
      NoHmacSigned(pre);
      assert pre + [] == pre;
    }
    assert Signed(front + post) == pre + post by {
      SignedAppend(front, post);
      NoHmacSigned(post);
    }
    assert Claimed(front + post) == v by {
      ClaimedAfter(front, post);
      assert front[..|front| - 1] == pre;
    }
  }

  lemma SignedOfSignature(sig: QueryParam)
    requires sig.key == HMAC_KEY
    ensures Signed([sig]) == [] && Claimed([sig]) == sig.value
  {
    assert [sig][..0] == [];
  }

  /** Round trip: a non-empty query without "hmac" pairs, signed over its own canonical form
      and with the signature inserted anywhere as an "hmac" pair, is accepted. */
  lemma SignRoundTrip(app: ShopifyApp, mac: Mac, pre: seq<QueryParam>, post: seq<QueryParam>)
    requires pre + post != []
    requires forall i | 0 <= i < |pre| :: pre[i].key != HMAC_KEY
    requires forall i | 0 <= i < |post| :: post[i].key != HMAC_KEY
    ensures
      var sig := QueryParam(HMAC_KEY, GenerateHmacHex(app, mac, CanonicalMessage(pre + post)));
      Verdict(app, mac, pre + [sig] + post)
  {
    WithSignature(pre, GenerateHmacHex(app, mac, CanonicalMessage(pre + post)), post);
  }

  /** Without "hmac" keys everything is signed. */
  lemma {:induction false} NoHmacSigned(ps: seq<QueryParam>)
    requires forall i | 0 <= i < |ps| :: ps[i].key != HMAC_KEY
    ensures Signed(ps) == ps
  {
    if ps != [] {
      var n := |ps| - 1;
      var init := ps[..n];
      assert Signed(init) == init by {
        assert forall i | 0 <= i < n :: init[i] == ps[i];
        NoHmacSigned(init);
      }
      assert ps[n].key != HMAC_KEY;
      assert Signed(ps) == init + [ps[n]];
      assert init + [ps[n]] == ps;
    }
  }

  /** Order independence: when no two different pairs share a key (in particular when all
      keys are distinct), any rearrangement of the query gets the same verdict. */
  lemma OrderIndependent(app: ShopifyApp, mac: Mac, ps: seq<QueryParam>, qs: seq<QueryParam>)
    requires multiset(ps) == multiset(qs)
    requires KeysDetermine(multiset(ps))
    ensures Verdict(app, mac, ps) == Verdict(app, mac, qs)
  {
    SignedPermuted(ps, qs);
    var sp, sq := Signed(ps), Signed(qs);
    SortedUnique(SortByKey(sp), SortByKey(sq));
    ClaimedPermuted(ps, qs);
    assert sp == [] <==> sq == [] by {
      assert |multiset(sp)| == |sp| && |multiset(sq)| == |sq|;
    }
  }

  /** Rearranging a query rearranges its signed pairs, and these are among the query's pairs,
      so keys still determine them. */
  lemma SignedPermuted(ps: seq<QueryParam>, qs: seq<QueryParam>)
    requires multiset(ps) == multiset(qs)
    requires KeysDetermine(multiset(ps))
    ensures multiset(Signed(ps)) == multiset(Signed(qs))
    ensures multiset(SortByKey(Signed(ps))) == multiset(SortByKey(Signed(qs)))
    ensures KeysDetermine(multiset(SortByKey(Signed(ps))))
  {
    SignedCount(ps);
    SignedCount(qs);
    var sp, sq := Signed(ps), Signed(qs);
    forall p ensures multiset(sp)[p] == multiset(sq)[p] && multiset(sp)[p] <= multiset(ps)[p] { }
    assert multiset(sp) == multiset(sq);
    KeysDetermineSub(multiset(sp), multiset(ps));
  }

  /** Rearranging a query where keys determine pairs keeps its claimed value. */
  lemma ClaimedPermuted(ps: seq<QueryParam>, qs: seq<QueryParam>)
    requires multiset(ps) == multiset(qs)
    requires KeysDetermine(multiset(ps))
    ensures Claimed(ps) == Claimed(qs)
  {
    ClaimedDetermined(ps);
    ClaimedDetermined(qs);
    if exists p :: p in ps && p.key == HMAC_KEY {
      var p :| p in ps && p.key == HMAC_KEY;
      assert p in multiset(qs);
    } else {
      forall p | p in qs ensures p.key != HMAC_KEY {
        assert p in multiset(ps);
      }
    }
  }

  /** When keys determine pairs, all "hmac" pairs are one and the same, so the claimed value
      depends only on which pairs occur. */
  lemma ClaimedDetermined(ps: seq<QueryParam>)
    requires KeysDetermine(multiset(ps))
    ensures forall p | p in ps && p.key == HMAC_KEY :: Claimed(ps) == p.value
    ensures (forall p | p in ps :: p.key != HMAC_KEY) ==> Claimed(ps) == []
  {
    ClaimedIsLast(ps);
    forall p | p in ps && p.key == HMAC_KEY
      ensures Claimed(ps) == p.value
    {
      var k :| 0 <= k < |ps| && ps[k].key == HMAC_KEY && Claimed(ps) == ps[k].value &&
        forall j | k < j < |ps| :: ps[j].key != HMAC_KEY;
      assert ps[k] in multiset(ps);
    }
  }

  /** With separator-free keys and values the canonical message has one `&` per gap and
      splits back into the sorted `key=value` pieces. */
  lemma CanonicalSplits(signed: seq<QueryParam>)
    requires signed != []
    requires forall i | 0 <= i < |signed| ::
      '&' as int !in signed[i].key && '&' as int !in signed[i].value
    ensures multiset(CanonicalMessage(signed))['&' as int] == |signed| - 1
    ensures Split<byte>(CanonicalMessage(signed), '&' as int) == Renders(SortByKey(signed))
  {
    var parts := Renders(SortByKey(signed));
    var amp: byte := '&' as int;
    SortedAvoids(signed, amp);
    assert |parts| == |signed| by {
      assert |multiset(SortByKey(signed))| == |multiset(signed)|;
    }
    assert CanonicalMessage(signed) == Join(parts, [amp]);
    JoinSeparatorCount(parts, amp);
    SplitJoin(parts, amp);
  }

  /** A byte other than `=` that no key or value holds is in no rendered pair after sorting. */
  lemma SortedAvoids(signed: seq<QueryParam>, c: byte)
    requires c != '=' as int
    requires forall i | 0 <= i < |signed| :: c !in signed[i].key && c !in signed[i].value
    ensures forall i | 0 <= i < |Renders(SortByKey(signed))| :: c !in Renders(SortByKey(signed))[i]
  {
    var sorted := SortByKey(signed);
    forall i | 0 <= i < |sorted|
      ensures c !in Renders(sorted)[i]
    {
      assert sorted[i] in multiset(signed);
      assert Renders(sorted)[i] == sorted[i].key + EQUALS + sorted[i].value;
    }
  }
}
