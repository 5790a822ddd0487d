// The bytes a proposer signs (savitri-lightnode/src/proposer.rs): fixed fields around a list of parents
// that is brought into canonical form.
module Proposals {
  import opened Basics
  import opened ByteStrings

  datatype Proposal = Proposal(round: u64, height: u64, timestamp: u64, pubkey: Hash32, parent: Hash64,
                               parents: seq<Bytes>, stateRoot: Hash64, txRoot: Hash64, transactions: nat)

  // ---------- Canonical parents ----------

  function Zeros(n: nat): Bytes {
    seq(n, _ => 0)
  }

  /** Cut or padded to 64 bytes. */
  function Normalize(h: Bytes): (r: Hash64)
    ensures forall i :: 0 <= i < 64 ==> r[i] == if i < |h| then h[i] else 0
  {
    if |h| >= 64 then h[..64] else h + Zeros(64 - |h|)
  }

  /** The primary parent, then each new parent at its first mention. */
  function Canonical(parent: Hash64, hashes: seq<Bytes>): seq<Hash64> {
    if hashes == [] then [parent]
    else Extend(Canonical(parent, hashes[..|hashes| - 1]), hashes[|hashes| - 1])
  }

  function Extend(parents: seq<Hash64>, h: Bytes): seq<Hash64> {
    if Normalize(h) in parents then parents else parents + [Normalize(h)]
  }

  method CanonicalParents(parent: Hash64, hashes: seq<Bytes>) returns (parents: seq<Hash64>)
    ensures parents == Canonical(parent, hashes)
  {
    parents := [parent];
    for i := 0 to |hashes|
      invariant parents == Canonical(parent, hashes[..i])
      invariant parent in parents
    {
      assert hashes[..i + 1][..i] == hashes[..i];
      var normalized := Normalize(hashes[i]);
      if normalized != parent && normalized !in parents {
        parents := parents + [normalized];
      }
    }
    assert hashes[..|hashes|] == hashes;
  }

  /** Starts with the primary, repeats nothing and holds exactly the primary and the normalized others. */
  lemma {:induction false} CanonicalShape(parent: Hash64, hashes: seq<Bytes>)
    ensures
      var c := Canonical(parent, hashes);
      && c[0] == parent
      && (forall i, j :: 0 <= i < j < |c| ==> c[i] != c[j])
      && (forall x :: x in c <==> x == parent || exists h :: h in hashes && Normalize(h) == x)
  {
    if hashes != [] {
      var n := |hashes| - 1;
      CanonicalShape(parent, hashes[..n]);
      assert hashes == hashes[..n] + [hashes[n]];
      assert forall x :: x in Canonical(parent, hashes) <==> x in Canonical(parent, hashes[..n]) || x == Normalize(hashes[n]);
    }
  }

  lemma CanonicalAppend(parent: Hash64, hashes: seq<Bytes>, h: Bytes)
    ensures Canonical(parent, hashes + [h]) == Extend(Canonical(parent, hashes), h)
  {
    assert (hashes + [h])[..|hashes|] == hashes;
  }

  /** h is first mentioned, up to spelling, at position a. */
  ghost predicate FirstMention(hashes: seq<Bytes>, h: Hash64, a: nat) {
    a < |hashes| && Normalize(hashes[a]) == h && forall b :: 0 <= b < a ==> Normalize(hashes[b]) != h
  }

  lemma MentionStays(hashes: seq<Bytes>, n: nat, h: Hash64, a: nat)
    requires n <= |hashes| && FirstMention(hashes[..n], h, a)
    ensures FirstMention(hashes, h, a)
  {
    assert forall b :: 0 <= b < n ==> hashes[..n][b] == hashes[b];
  }

  lemma NewMention(parent: Hash64, hashes: seq<Bytes>, n: nat)
    requires n < |hashes| && Normalize(hashes[n]) !in Canonical(parent, hashes[..n])
    ensures FirstMention(hashes, Normalize(hashes[n]), n)
  {
    CanonicalShape(parent, hashes[..n]);
    forall b | 0 <= b < n ensures Normalize(hashes[b]) != Normalize(hashes[n]) {
      assert hashes[..n][b] in hashes[..n];
    }
  }

  lemma {:induction false} Mentioned(parent: Hash64, hashes: seq<Bytes>, i: nat) returns (a: nat)
    requires 0 < i < |Canonical(parent, hashes)|
    ensures FirstMention(hashes, Canonical(parent, hashes)[i], a)
  {
    var n := |hashes| - 1;
    if i < |Canonical(parent, hashes[..n])| {
      a := Mentioned(parent, hashes[..n], i);
      MentionStays(hashes, n, Canonical(parent, hashes)[i], a);
    } else {
      a := n;
      NewMention(parent, hashes, n);
    }
  }

  /** The parents after the primary come in the order in which they are first mentioned. */
  lemma {:induction false} CanonicalOrder(parent: Hash64, hashes: seq<Bytes>, i: nat, j: nat) returns (a: nat, b: nat)
    requires 0 < i < j < |Canonical(parent, hashes)|
    ensures FirstMention(hashes, Canonical(parent, hashes)[i], a) && FirstMention(hashes, Canonical(parent, hashes)[j], b)
    ensures a < b
  {
    var n := |hashes| - 1;
    if j < |Canonical(parent, hashes[..n])| {
      a, b := CanonicalOrder(parent, hashes[..n], i, j);
      MentionStays(hashes, n, Canonical(parent, hashes)[j], b);
    } else {
      a := Mentioned(parent, hashes[..n], i);
      b := n;
      NewMention(parent, hashes, n);
    }
    MentionStays(hashes, n, Canonical(parent, hashes)[i], a);
  }

  /** A parent that is already there, spelled the same, padded, or the primary itself, changes nothing. */
  lemma {:induction false} RepeatsIgnored(parent: Hash64, a: seq<Bytes>, h: Bytes, b: seq<Bytes>)
    requires Normalize(h) in Canonical(parent, a)
    ensures Canonical(parent, a + [h] + b) == Canonical(parent, a + b)
  {
    if b == [] {
      CanonicalAppend(parent, a, h);
      assert a + [h] + b == a + [h] && a + b == a;
    } else {
      var n := |b| - 1;
      RepeatsIgnored(parent, a, h, b[..n]);
      CanonicalAppend(parent, a + [h] + b[..n], b[n]);
      CanonicalAppend(parent, a + b[..n], b[n]);
      assert a + [h] + b == a + [h] + b[..n] + [b[n]];
      assert a + b == a + b[..n] + [b[n]];
    }
  }

  /** Only the normalized form of a parent matters. */
  lemma {:induction false} SpellingIgnored(parent: Hash64, a: seq<Bytes>, h: Bytes, h': Bytes, b: seq<Bytes>)
    requires Normalize(h) == Normalize(h')
    ensures Canonical(parent, a + [h] + b) == Canonical(parent, a + [h'] + b)
  {
    if b == [] {
      CanonicalAppend(parent, a, h);
      CanonicalAppend(parent, a, h');
      assert a + [h] + b == a + [h] && a + [h'] + b == a + [h'];
    } else {
      var n := |b| - 1;
      SpellingIgnored(parent, a, h, h', b[..n]);
      CanonicalAppend(parent, a + [h] + b[..n], b[n]);
      CanonicalAppend(parent, a + [h'] + b[..n], b[n]);
      assert a + [h] + b == a + [h] + b[..n] + [b[n]];
      assert a + [h'] + b == a + [h'] + b[..n] + [b[n]];
    }
  }

  /** Zeros appended to a parent up to its full length change nothing. */
  lemma PaddingIgnored(parent: Hash64, a: seq<Bytes>, h: Bytes, k: nat, b: seq<Bytes>)
    requires |h| + k <= 64
    ensures Canonical(parent, a + [h + Zeros(k)] + b) == Canonical(parent, a + [h] + b)
  {
    assert h + Zeros(k) + Zeros(64 - |h| - k) == h + Zeros(64 - |h|);
    SpellingIgnored(parent, a, h + Zeros(k), h, b);
  }

  /** Canonical lists are fixed points. */
  lemma {:induction false} CanonicalIdempotent(parent: Hash64, hashes: seq<Bytes>, k: nat)
    requires 1 <= k <= |Canonical(parent, hashes)|
    ensures Canonical(parent, Canonical(parent, hashes)[..k]) == Canonical(parent, hashes)[..k]
  {
    var c := Canonical(parent, hashes);
    CanonicalShape(parent, hashes);
    assert Normalize(c[k - 1]) == c[k - 1];
    if k == 1 {
      assert c[..1] == [] + [c[0]];
      CanonicalAppend(parent, [], c[0]);
    } else {
      CanonicalIdempotent(parent, hashes, k - 1);
      assert c[..k] == c[..k - 1] + [c[k - 1]];
      CanonicalAppend(parent, c[..k - 1], c[k - 1]);
      assert c[k - 1] !in c[..k - 1];
    }
  }

  // ---------- Signed bytes ----------

  // "savitri-proposal-v1"
  const PREFIX: Bytes := [0x73, 0x61, 0x76, 0x69, 0x74, 0x72, 0x69, 0x2d, 0x70, 0x72, 0x6f, 0x70, 0x6f,
                          0x73, 0x61, 0x6c, 0x2d, 0x76, 0x31]

  function Tail(p: Proposal): Bytes {
    p.stateRoot + (p.txRoot + LittleEndian(p.transactions, 4))
  }

  function Parents(p: Proposal): seq<Hash64> {
    Canonical(p.parent, p.parents)
  }

  function Middle(p: Proposal): Bytes {
    LittleEndian(|Parents(p)|, 4) + (Concat(Parents(p)) + Tail(p))
  }

  /** What follows the numbers. */
  function Keys(p: Proposal): Bytes {
    p.pubkey + (p.parent + Middle(p))
  }

  function SignableBytes(p: Proposal): Bytes {
    PREFIX + (LittleEndian(p.round, 8) + (LittleEndian(p.height, 8) + (LittleEndian(p.timestamp, 8) + Keys(p))))
  }

  method ProposalSignableBytes(p: Proposal) returns (bytes: Bytes)
    ensures bytes == SignableBytes(p)
  {
    bytes := PREFIX;
    bytes := bytes + LittleEndian(p.round, 8);
    bytes := bytes + LittleEndian(p.height, 8);
    bytes := bytes + LittleEndian(p.timestamp, 8);
    bytes := bytes + p.pubkey;
    bytes := bytes + p.parent;
    var parents := CanonicalParents(p.parent, p.parents);
    bytes := bytes + LittleEndian(|parents|, 4);
    var list := ConcatAll(parents);
    bytes := bytes + list;
    bytes := bytes + p.stateRoot;
    bytes := bytes + p.txRoot;
    bytes := bytes + LittleEndian(p.transactions, 4);
  }

  method ConcatAll(parts: seq<Hash64>) returns (bytes: Bytes)
    ensures bytes == Concat(parts)
  {
    bytes := [];
    for i := 0 to |parts|
      invariant bytes + Concat(parts[i..]) == Concat(parts)
    {
      assert parts[i..][0] == parts[i] && parts[i..][1..] == parts[i + 1..];
      bytes := bytes + parts[i];
    }
  }

  lemma {:induction false} ParentAt(parts: seq<Hash64>, i: nat, rest: Bytes)
    requires i < |parts|
    ensures At(Concat(parts) + rest, 64 * i, parts[i])
  {
    assert Concat(parts) == parts[0] + Concat(parts[1..]);
    assert Concat(parts) + rest == parts[0] + (Concat(parts[1..]) + rest);
    if i == 0 {
      AtFront(parts[0], Concat(parts[1..]) + rest);
    } else {
      ParentAt(parts[1..], i - 1, rest);
      AtBehind(parts[0], Concat(parts[1..]) + rest, 64 * (i - 1), parts[i]);
    }
  }

  lemma TailLayout(p: Proposal)
    ensures |Tail(p)| == 132
    ensures At(Tail(p), 0, p.stateRoot) && At(Tail(p), 64, p.txRoot) && At(Tail(p), 128, LittleEndian(p.transactions, 4))
  {
    var count := LittleEndian(p.transactions, 4);
    AtFront(p.stateRoot, p.txRoot + count);
    AtAfter(p.stateRoot, p.txRoot, count);
    assert p.txRoot + count == p.txRoot + (count + []);
    AtAfter(p.txRoot, count, []);
    AtBehind(p.stateRoot, p.txRoot + count, 64, count);
  }

  lemma MiddleLayout(p: Proposal, i: nat)
    requires i < |Parents(p)|
    ensures At(Middle(p), 0, LittleEndian(|Parents(p)|, 4)) && At(Middle(p), 4 + 64 * i, Parents(p)[i])
    ensures At(Middle(p), 4 + 64 * |Parents(p)|, Tail(p)) && |Middle(p)| == 136 + 64 * |Parents(p)|
  {
    var n, list := LittleEndian(|Parents(p)|, 4), Concat(Parents(p));
    ConcatLength(Parents(p), 64);
    TailLayout(p);
    AtFront(n, list + Tail(p));
    ParentAt(Parents(p), i, Tail(p));
    AtBehind(n, list + Tail(p), 64 * i, Parents(p)[i]);
    assert list + Tail(p) == list + (Tail(p) + []);
    AtAfter(list, Tail(p), []);
    AtBehind(n, list + Tail(p), |list|, Tail(p));
  }

  lemma KeysLayout(p: Proposal)
    ensures At(Keys(p), 0, p.pubkey) && At(Keys(p), 32, p.parent) && At(Keys(p), 96, Middle(p)) && |Keys(p)| == 96 + |Middle(p)|
  {
    var x := p.parent + Middle(p);
    AtFront(p.pubkey, x);
    AtAfter(p.pubkey, p.parent, Middle(p));
    AtWhole(p.pubkey, x);
    AtWhole(p.parent, Middle(p));
    AtWithin(Keys(p), 32, x, 64, Middle(p));
  }

  /** A prefix, three numbers and the rest. */
  lemma NumbersLayout(front: Bytes, a: Bytes, b: Bytes, c: Bytes, rest: Bytes)
    requires |a| == |b| == |c| == 8
    ensures
      var x, k := front + (a + (b + (c + rest))), |front|;
      && At(x, 0, front) && At(x, k, a) && At(x, k + 8, b) && At(x, k + 16, c) && At(x, k + 24, rest)
      && |x| == k + 24 + |rest|
  {
    var x, k := front + (a + (b + (c + rest))), |front|;
    AtFront(front, a + (b + (c + rest)));
    AtAfter(front, a, b + (c + rest));
    assert x == (front + a) + (b + (c + rest)) == (front + a + b) + (c + rest) == (front + a + b + c) + rest;
    AtAfter(front + a, b, c + rest);
    AtAfter(front + a + b, c, rest);
    AtWhole(front + a + b + c, rest);
  }

  lemma HeadLayout(p: Proposal)
    ensures
      var b := SignableBytes(p);
      && At(b, 0, PREFIX) && At(b, 19, LittleEndian(p.round, 8)) && At(b, 27, LittleEndian(p.height, 8))
      && At(b, 35, LittleEndian(p.timestamp, 8)) && At(b, 43, Keys(p)) && |b| == 43 + |Keys(p)|
  {
    NumbersLayout(PREFIX, LittleEndian(p.round, 8), LittleEndian(p.height, 8), LittleEndian(p.timestamp, 8), Keys(p));
  }

  lemma PrefixSpells()
    ensures |PREFIX| == 19 && forall k :: 0 <= k < 19 ==> PREFIX[k] == "savitri-proposal-v1"[k] as int
  {
    var text := "savitri-proposal-v1";
    assert |text| == 19;
  }

  /** The prefix and the numbers, least significant byte first. */
  ghost predicate FrontPlaced(b: Bytes, p: Proposal) {
    && |b| >= 19 && (forall k :: 0 <= k < 19 ==> b[k] == "savitri-proposal-v1"[k] as int)
    && At(b, 19, LittleEndian(p.round, 8)) && At(b, 27, LittleEndian(p.height, 8)) && At(b, 35, LittleEndian(p.timestamp, 8))
  }

  /** The key, the primary parent, and the canonical parents after their count. */
  ghost predicate ParentsPlaced(b: Bytes, p: Proposal) {
    && At(b, 43, p.pubkey) && At(b, 75, p.parent) && At(b, 139, LittleEndian(|Parents(p)|, 4))
    && forall i :: 0 <= i < |Parents(p)| ==> At(b, 143 + 64 * i, Parents(p)[i])
  }

  /** The roots and the number of transactions end it. */
  ghost predicate TailPlaced(b: Bytes, e: nat, p: Proposal) {
    |b| == e + 132 && At(b, e, p.stateRoot) && At(b, e + 64, p.txRoot) && At(b, e + 128, LittleEndian(p.transactions, 4))
  }

  lemma SignedFront(p: Proposal)
    ensures FrontPlaced(SignableBytes(p), p)
  {
    var b := SignableBytes(p);
    HeadLayout(p);
    PrefixSpells();
    assert b[0..19] == PREFIX;
    forall k | 0 <= k < 19 ensures b[k] == "savitri-proposal-v1"[k] as int {
      assert b[k] == b[0..19][k];
    }
  }

  lemma KeysMoved(b: Bytes, p: Proposal)
    requires At(b, 43, Keys(p)) && |b| == 43 + |Keys(p)|
    ensures At(b, 43, p.pubkey) && At(b, 75, p.parent) && At(b, 139, Middle(p)) && |b| == 139 + |Middle(p)|
  {
    KeysLayout(p);
    AtWithin(b, 43, Keys(p), 0, p.pubkey);
    AtWithin(b, 43, Keys(p), 32, p.parent);
    AtWithin(b, 43, Keys(p), 96, Middle(p));
  }

  lemma ParentMoved(b: Bytes, p: Proposal, i: nat)
    requires At(b, 139, Middle(p)) && i < |Parents(p)|
    ensures At(b, 139, LittleEndian(|Parents(p)|, 4)) && At(b, 143 + 64 * i, Parents(p)[i])
  {
    MiddleLayout(p, i);
    AtWithin(b, 139, Middle(p), 0, LittleEndian(|Parents(p)|, 4));
    AtWithin(b, 139, Middle(p), 4 + 64 * i, Parents(p)[i]);
  }

  lemma SignedParents(p: Proposal)
    ensures ParentsPlaced(SignableBytes(p), p)
  {
    var b := SignableBytes(p);
    HeadLayout(p);
    KeysMoved(b, p);
    CanonicalShape(p.parent, p.parents);
    ParentMoved(b, p, 0);
    forall i | 0 <= i < |Parents(p)| ensures At(b, 143 + 64 * i, Parents(p)[i]) {
      ParentMoved(b, p, i);
    }
  }

  lemma TailMoved(b: Bytes, e: nat, p: Proposal)
    requires At(b, e, Tail(p)) && |b| == e + |Tail(p)|
    ensures TailPlaced(b, e, p)
  {
    TailLayout(p);
    AtWithin(b, e, Tail(p), 0, p.stateRoot);
    AtWithin(b, e, Tail(p), 64, p.txRoot);
    AtWithin(b, e, Tail(p), 128, LittleEndian(p.transactions, 4));
  }

  lemma SignedTail(p: Proposal)
    ensures TailPlaced(SignableBytes(p), 143 + 64 * |Parents(p)|, p)
  {
    var b, n := SignableBytes(p), |Parents(p)|;
    HeadLayout(p);
    KeysMoved(b, p);
    CanonicalShape(p.parent, p.parents);
    MiddleLayout(p, 0);
    TailLayout(p);
    AtWithin(b, 139, Middle(p), 4 + 64 * n, Tail(p));
    TailMoved(b, 143 + 64 * n, p);
  }

  /** Which bytes are signed, place by place. */
  lemma SignedLayout(p: Proposal)
    ensures
      var b := SignableBytes(p);
      FrontPlaced(b, p) && ParentsPlaced(b, p) && TailPlaced(b, 143 + 64 * |Parents(p)|, p)
  {
    SignedFront(p);
    SignedParents(p);
    SignedTail(p);
  }

  /** What the signature covers. The count of transactions is written modulo 2^32. */
  ghost predicate SameSigned(p: Proposal, q: Proposal) {
    && p.round == q.round && p.height == q.height && p.timestamp == q.timestamp && p.pubkey == q.pubkey
    && Parents(p) == Parents(q)
    && p.stateRoot == q.stateRoot && p.txRoot == q.txRoot
    && p.transactions % U32 == q.transactions % U32
  }

  lemma TailInjective(p: Proposal, q: Proposal)
    ensures Tail(p) == Tail(q) <==>
            p.stateRoot == q.stateRoot && p.txRoot == q.txRoot && p.transactions % U32 == q.transactions % U32
  {
    SplitField(p.stateRoot, p.txRoot + LittleEndian(p.transactions, 4), q.stateRoot, q.txRoot + LittleEndian(q.transactions, 4));
    SplitField(p.txRoot, LittleEndian(p.transactions, 4), q.txRoot, LittleEndian(q.transactions, 4));
    LittleEndianInjective(p.transactions, q.transactions, 4);
    Widths();
  }

  lemma MiddleInjective(p: Proposal, q: Proposal)
    ensures Middle(p) == Middle(q) <==> Parents(p) == Parents(q) && Tail(p) == Tail(q)
  {
    var a, b := Parents(p), Parents(q);
    ConcatLength(a, 64);
    ConcatLength(b, 64);
    SplitField(LittleEndian(|a|, 4), Concat(a) + Tail(p), LittleEndian(|b|, 4), Concat(b) + Tail(q));
    if Concat(a) + Tail(p) == Concat(b) + Tail(q) {
      assert |a| == |b|;
      SplitField(Concat(a), Tail(p), Concat(b), Tail(q));
      ConcatInjective(a, b, 64);
    }
  }

  /** Two proposals give the same bytes exactly when they agree on everything the signature covers. */
  lemma SignableInjective(p: Proposal, q: Proposal)
    ensures SignableBytes(p) == SignableBytes(q) <==> SameSigned(p, q)
  {
    CanonicalShape(p.parent, p.parents);
    CanonicalShape(q.parent, q.parents);
    var p5, q5 := p.parent + Middle(p), q.parent + Middle(q);
    var p4, q4 := p.pubkey + p5, q.pubkey + q5;
    var p3, q3 := LittleEndian(p.timestamp, 8) + p4, LittleEndian(q.timestamp, 8) + q4;
    var p2, q2 := LittleEndian(p.height, 8) + p3, LittleEndian(q.height, 8) + q3;
    var p1, q1 := LittleEndian(p.round, 8) + p2, LittleEndian(q.round, 8) + q2;
    SplitField(PREFIX, p1, PREFIX, q1);
    U64Field(p.round, p2, q.round, q2);
    U64Field(p.height, p3, q.height, q3);
    U64Field(p.timestamp, p4, q.timestamp, q4);
    SplitField(p.pubkey, p5, q.pubkey, q5);
    SplitField(p.parent, Middle(p), q.parent, Middle(q));
    MiddleInjective(p, q);
    TailInjective(p, q);
  }
}
