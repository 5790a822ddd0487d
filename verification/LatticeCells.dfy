// Cells of the lattice: identity, signed bytes and canonical order
// (savitri-consensus/src/types/lattice.rs).
module LatticeCells {
  import opened Basics
  import opened ByteStrings

  type CellId = Hash32

  datatype Cell = Cell(round: u64, groupId: Bytes, author: Bytes, authorPubkey: Hash32,
                       parents: seq<CellId>, batchRoot: Hash32, signature: Hash64)

  datatype Attestation = Attestation(signer: Bytes, signerPubkey: Hash32, signature: Hash64)

  /** The cell identifier, Blake3 over the signed bytes, and Ed25519 verification of a signature under a
      key, both left abstract. An attestation is checked by its key alone: its signer's name is not looked at. */
  datatype Crypto = Crypto(id: Cell -> CellId, signs: (Hash32, Hash64, Cell) -> bool) {

    predicate AuthorOk(c: Cell) {
      signs(c.authorPubkey, c.signature, c)
    }

    predicate AttestationOk(a: Attestation, c: Cell) {
      signs(a.signerPubkey, a.signature, c)
    }
  }

  // ---------- Signed bytes ----------

  const BAR: Byte := 0x7C

  // "savitri-lattice-cell-v1|"
  const PREFIX: Bytes := [0x73, 0x61, 0x76, 0x69, 0x74, 0x72, 0x69, 0x2d, 0x6c, 0x61, 0x74, 0x74,
                          0x69, 0x63, 0x65, 0x2d, 0x63, 0x65, 0x6c, 0x6c, 0x2d, 0x76, 0x31, 0x7c]

  /** What follows the author's name. */
  function Tail(c: Cell): Bytes {
    c.authorPubkey + ([BAR] + (Concat(c.parents) + ([BAR] + c.batchRoot)))
  }

  /** The names between bars, and what follows them. */
  function Named(c: Cell): Bytes {
    c.groupId + [BAR] + (c.author + [BAR] + Tail(c))
  }

  function SignableBytes(c: Cell): Bytes {
    PREFIX + (LittleEndian(c.round, 8) + ([BAR] + Named(c)))
  }

  /** Equal up to the author's signature, which the signed bytes leave out. */
  predicate Same(c: Cell, d: Cell) {
    && c.round == d.round && c.groupId == d.groupId && c.author == d.author
    && c.authorPubkey == d.authorPubkey && c.parents == d.parents && c.batchRoot == d.batchRoot
  }

  /** Identifiers and signatures are those of the signed bytes. */
  ghost predicate OnBytes(w: Crypto) {
    forall c, d {:trigger SignableBytes(c), SignableBytes(d)} :: SignableBytes(c) == SignableBytes(d) ==>
      w.id(c) == w.id(d) && forall k, s :: w.signs(k, s, c) == w.signs(k, s, d)
  }

  predicate PlainNames(c: Cell) {
    BAR !in c.groupId && BAR !in c.author
  }

  lemma {:induction false} ParentAt(ids: seq<CellId>, i: nat, rest: Bytes)
    requires i < |ids|
    ensures At(Concat(ids) + rest, 32 * i, ids[i])
  {
    assert Concat(ids) == ids[0] + Concat(ids[1..]);
    assert Concat(ids) + rest == ids[0] + (Concat(ids[1..]) + rest);
    if i == 0 {
      AtFront(ids[0], Concat(ids[1..]) + rest);
    } else {
      ParentAt(ids[1..], i - 1, rest);
      AtBehind(ids[0], Concat(ids[1..]) + rest, 32 * (i - 1), ids[i]);
    }
  }

  lemma TailLayout(c: Cell)
    ensures
      var n := |c.parents|;
      && |Tail(c)| == 66 + 32 * n && At(Tail(c), 0, c.authorPubkey) && At(Tail(c), 32, [BAR])
      && (forall i :: 0 <= i < n ==> At(Tail(c), 33 + 32 * i, c.parents[i]))
      && At(Tail(c), 33 + 32 * n, [BAR]) && At(Tail(c), 34 + 32 * n, c.batchRoot)
  {
    var list, n := Concat(c.parents), |c.parents|;
    var x2 := [BAR] + c.batchRoot;
    var x1 := list + x2;
    ConcatLength(c.parents, 32);
    AtFront(c.authorPubkey, [BAR] + x1);
    AtAfter(c.authorPubkey, [BAR], x1);
    AtWhole(c.authorPubkey, [BAR] + x1);
    AtWhole([BAR], x1);
    AtWithin(Tail(c), 32, [BAR] + x1, 1, x1);
    forall i | 0 <= i < n ensures At(Tail(c), 33 + 32 * i, c.parents[i]) {
      ParentAt(c.parents, i, x2);
      AtWithin(Tail(c), 33, x1, 32 * i, c.parents[i]);
    }
    AtAfter(list, [BAR], c.batchRoot);
    AtWithin(Tail(c), 33, x1, 32 * n, [BAR]);
    AtWhole(list, x2);
    AtWhole([BAR], c.batchRoot);
    AtWithin(Tail(c), 33, x1, 32 * n, x2);
    AtWithin(Tail(c), 33 + 32 * n, x2, 1, c.batchRoot);
  }

  lemma PrefixSpells()
    ensures |PREFIX| == 24 && forall k :: 0 <= k < 24 ==> PREFIX[k] == "savitri-lattice-cell-v1|"[k] as int
    ensures BAR == '|' as int
  {
    var text := "savitri-lattice-cell-v1|";
    assert |text| == 24;
  }

  lemma NamedField(name: Bytes, rest: Bytes)
    ensures
      var x := name + [BAR] + rest;
      At(x, 0, name) && At(x, |name|, [BAR]) && At(x, |name| + 1, rest) && |x| == |name| + 1 + |rest|
  {
    var x := name + [BAR] + rest;
    assert x == name + ([BAR] + rest);
    AtFront(name, [BAR] + rest);
    AtAfter(name, [BAR], rest);
    AtWhole(name + [BAR], rest);
  }

  lemma NamesLayout(c: Cell)
    ensures
      var x, g, a := Named(c), |c.groupId|, |c.author|;
      && At(x, 0, c.groupId) && At(x, g, [BAR]) && At(x, g + 1, c.author) && At(x, g + 1 + a, [BAR])
      && At(x, g + 2 + a, Tail(c)) && |x| == g + 2 + a + |Tail(c)|
  {
    var x, g, a, y := Named(c), |c.groupId|, |c.author|, c.author + [BAR] + Tail(c);
    NamedField(c.groupId, y);
    NamedField(c.author, Tail(c));
    AtWithin(x, g + 1, y, 0, c.author);
    AtWithin(x, g + 1, y, a, [BAR]);
    AtWithin(x, g + 1, y, a + 1, Tail(c));
  }

  lemma FrontLayout(front: Bytes, number: Bytes, rest: Bytes)
    ensures
      var b, f, n := front + (number + ([BAR] + rest)), |front|, |number|;
      At(b, 0, front) && At(b, f, number) && At(b, f + n, [BAR]) && At(b, f + n + 1, rest) && |b| == f + n + 1 + |rest|
  {
    var x := number + ([BAR] + rest);
    var b, f, n := front + x, |front|, |number|;
    AtFront(front, x);
    AtWhole(front, x);
    AtAfter(front, number, [BAR] + rest);
    AtAfter(number, [BAR], rest);
    AtWithin(b, f, x, n, [BAR]);
    AtWhole(number + [BAR], rest);
    assert x == number + [BAR] + rest;
    AtWithin(b, f, x, n + 1, rest);
  }

  /** The prefix, and the round least significant byte first. */
  ghost predicate FrontPlaced(b: Bytes, c: Cell) {
    && |b| >= 24 && (forall k :: 0 <= k < 24 ==> b[k] == "savitri-lattice-cell-v1|"[k] as int)
    && At(b, 24, LittleEndian(c.round, 8)) && At(b, 32, ['|' as int])
  }

  /** Then the names, each with a bar after it. */
  ghost predicate NamesPlaced(b: Bytes, c: Cell) {
    var g, a := |c.groupId|, |c.author|;
    At(b, 33, c.groupId) && At(b, 33 + g, ['|' as int]) && At(b, 34 + g, c.author) && At(b, 34 + g + a, ['|' as int])
  }

  /** From place t on the key, the parents one after the other, and the batch root, between bars. */
  ghost predicate TailPlaced(b: Bytes, t: nat, c: Cell) {
    var n := |c.parents|;
    && |b| == t + 66 + 32 * n && At(b, t, c.authorPubkey) && At(b, t + 32, ['|' as int])
    && (forall i :: 0 <= i < n ==> At(b, t + 33 + 32 * i, c.parents[i]))
    && At(b, t + 33 + 32 * n, ['|' as int]) && At(b, t + 34 + 32 * n, c.batchRoot)
  }

  lemma NamedAt(c: Cell)
    ensures At(SignableBytes(c), 33, Named(c)) && |SignableBytes(c)| == 33 + |Named(c)|
  {
    FrontLayout(PREFIX, LittleEndian(c.round, 8), Named(c));
  }

  lemma SignedFront(c: Cell)
    ensures FrontPlaced(SignableBytes(c), c)
  {
    var b := SignableBytes(c);
    FrontLayout(PREFIX, LittleEndian(c.round, 8), Named(c));
    PrefixSpells();
    assert b[0..24] == PREFIX;
    forall k | 0 <= k < 24 ensures b[k] == "savitri-lattice-cell-v1|"[k] as int {
      assert b[k] == b[0..24][k];
    }
  }

  lemma SignedNames(b: Bytes, c: Cell)
    requires At(b, 33, Named(c))
    ensures NamesPlaced(b, c) && At(b, 35 + |c.groupId| + |c.author|, Tail(c))
  {
    var g, a := |c.groupId|, |c.author|;
    NamesLayout(c);
    PrefixSpells();
    AtWithin(b, 33, Named(c), 0, c.groupId);
    AtWithin(b, 33, Named(c), g, [BAR]);
    AtWithin(b, 33, Named(c), g + 1, c.author);
    AtWithin(b, 33, Named(c), g + 1 + a, [BAR]);
    AtWithin(b, 33, Named(c), g + 2 + a, Tail(c));
  }

  lemma TailMoved(b: Bytes, t: nat, c: Cell)
    requires At(b, t, Tail(c)) && |b| == t + |Tail(c)|
    ensures TailPlaced(b, t, c)
  {
    var n := |c.parents|;
    TailLayout(c);
    PrefixSpells();
    AtWithin(b, t, Tail(c), 0, c.authorPubkey);
    AtWithin(b, t, Tail(c), 32, [BAR]);
    AtWithin(b, t, Tail(c), 33 + 32 * n, [BAR]);
    AtWithin(b, t, Tail(c), 34 + 32 * n, c.batchRoot);
    forall i | 0 <= i < n ensures At(b, t + 33 + 32 * i, c.parents[i]) {
      AtWithin(b, t, Tail(c), 33 + 32 * i, c.parents[i]);
    }
  }

  lemma NamedSize(c: Cell)
    ensures |Named(c)| == |c.groupId| + 2 + |c.author| + |Tail(c)|
  {
  }

  lemma SignedTail(c: Cell)
    ensures NamesPlaced(SignableBytes(c), c) && TailPlaced(SignableBytes(c), 35 + |c.groupId| + |c.author|, c)
  {
    NamedAt(c);
    NamedSize(c);
    SignedNames(SignableBytes(c), c);
    TailMoved(SignableBytes(c), 35 + |c.groupId| + |c.author|, c);
  }

  /** Which bytes are signed, place by place. */
  lemma SignedLayout(c: Cell)
    ensures
      var b := SignableBytes(c);
      FrontPlaced(b, c) && NamesPlaced(b, c) && TailPlaced(b, 35 + |c.groupId| + |c.author|, c)
  {
    SignedFront(c);
    SignedTail(c);
  }

  lemma ParentsSplit(a: seq<CellId>, x: Bytes, b: seq<CellId>, y: Bytes)
    requires |x| == |y|
    ensures Concat(a) + x == Concat(b) + y <==> a == b && x == y
  {
    ConcatLength(a, 32);
    ConcatLength(b, 32);
    if Concat(a) + x == Concat(b) + y {
      assert |a| == |b|;
      SplitField(Concat(a), x, Concat(b), y);
      ConcatInjective(a, b, 32);
    }
  }

  lemma TailInjective(c: Cell, d: Cell)
    ensures Tail(c) == Tail(d) <==>
            c.authorPubkey == d.authorPubkey && c.parents == d.parents && c.batchRoot == d.batchRoot
  {
    var x, y := [BAR] + c.batchRoot, [BAR] + d.batchRoot;
    SplitField(c.authorPubkey, [BAR] + (Concat(c.parents) + x), d.authorPubkey, [BAR] + (Concat(d.parents) + y));
    SplitField([BAR], Concat(c.parents) + x, [BAR], Concat(d.parents) + y);
    ParentsSplit(c.parents, x, d.parents, y);
    SplitField([BAR], c.batchRoot, [BAR], d.batchRoot);
  }

  /** Cells whose names hold no separator sign the same bytes exactly when they have the same content. */
  lemma SignableInjective(c: Cell, d: Cell)
    requires PlainNames(c) && PlainNames(d)
    ensures SignableBytes(c) == SignableBytes(d) <==> Same(c, d)
  {
    var c3, d3 := c.author + [BAR] + Tail(c), d.author + [BAR] + Tail(d);
    var c2, d2 := c.groupId + [BAR] + c3, d.groupId + [BAR] + d3;
    var c1, d1 := LittleEndian(c.round, 8) + ([BAR] + c2), LittleEndian(d.round, 8) + ([BAR] + d2);
    SplitField(PREFIX, c1, PREFIX, d1);
    U64Field(c.round, [BAR] + c2, d.round, [BAR] + d2);
    SplitField([BAR], c2, [BAR], d2);
    SplitName(BAR, c.groupId, c3, d.groupId, d3);
    SplitName(BAR, c.author, Tail(c), d.author, Tail(d));
    TailInjective(c, d);
  }

  lemma CutGroup(c: Cell, i: nat) returns (d: Cell)
    requires i < |c.groupId| && c.groupId[i] == BAR
    ensures !Same(c, d) && SignableBytes(c) == SignableBytes(d)
  {
    var g, rest := c.groupId[..i], c.groupId[i + 1..];
    d := c.(groupId := g, author := rest + [BAR] + c.author);
    assert c.groupId == g + [BAR] + rest;
    assert c.groupId + [BAR] + (c.author + [BAR] + Tail(c)) == d.groupId + [BAR] + (d.author + [BAR] + Tail(d));
    assert |d.groupId| < |c.groupId|;
  }

  lemma CutAuthor(c: Cell, i: nat) returns (d: Cell)
    requires i < |c.author| && c.author[i] == BAR
    ensures !Same(c, d) && SignableBytes(c) == SignableBytes(d)
  {
    var a, rest := c.author[..i], c.author[i + 1..];
    d := c.(groupId := c.groupId + [BAR] + a, author := rest);
    assert c.author == a + [BAR] + rest;
    assert c.groupId + [BAR] + (c.author + [BAR] + Tail(c)) == d.groupId + [BAR] + (d.author + [BAR] + Tail(d));
    assert |d.author| < |c.author|;
  }

  /** The condition is needed: a name with a separator can be cut at another place. */
  lemma AmbiguousNames(c: Cell) returns (d: Cell)
    requires !PlainNames(c)
    ensures !Same(c, d) && SignableBytes(c) == SignableBytes(d)
  {
    if BAR in c.groupId {
      var i :| 0 <= i < |c.groupId| && c.groupId[i] == BAR;
      d := CutGroup(c, i);
    } else {
      var i :| 0 <= i < |c.author| && c.author[i] == BAR;
      d := CutAuthor(c, i);
    }
  }

  // ---------- Canonical order: round first, then author ----------

  datatype Key = Key(round: u64, author: Bytes)

  function KeyOf(c: Cell): Key {
    Key(c.round, c.author)
  }

  predicate Less(a: Key, b: Key) {
    a.round < b.round || (a.round == b.round && LexLess(a.author, b.author))
  }

  lemma LessTotal(a: Key, b: Key)
    ensures Less(a, b) || Less(b, a) || a == b
    ensures !(Less(a, b) && Less(b, a))
    ensures Less(a, b) ==> a != b
  {
    LexTotal(a.author, b.author);
  }

  lemma LessTransitive(a: Key, b: Key, c: Key)
    requires Less(a, b) && Less(b, c)
    ensures Less(a, c)
  {
    if a.round == b.round == c.round {
      LexTransitive(a.author, b.author, c.author);
    }
  }

  ghost predicate IsLeast(m: Key, s: set<Key>) {
    m in s && forall x :: x in s ==> x == m || Less(m, x)
  }

  lemma LeastExists(s: set<Key>)
    requires s != {}
    ensures exists m :: IsLeast(m, s)
  {
    var x :| x in s;
    if s == {x} {
      assert IsLeast(x, s);
    } else {
      LeastExists(s - {x});
      var m :| IsLeast(m, s - {x});
      LessTotal(m, x);
      if Less(x, m) {
        forall y | y in s ensures y == x || Less(x, y) {
          if y != x && y != m { LessTransitive(x, m, y); }
        }
        assert IsLeast(x, s);
      } else {
        assert IsLeast(m, s);
      }
    }
  }

  ghost function Least(s: set<Key>): (m: Key)
    requires s != {}
    ensures IsLeast(m, s)
  {
    LeastExists(s);
    var m :| IsLeast(m, s);
    m
  }

  ghost predicate Ascending(keys: seq<Key>) {
    forall i, j :: 0 <= i < j < |keys| ==> Less(keys[i], keys[j])
  }

  /** The keys of a set in canonical order, as a BTreeMap iterates over them. */
  ghost function InOrder(s: set<Key>): (keys: seq<Key>)
    ensures Ascending(keys)
    ensures forall k :: k in keys <==> k in s
    ensures |keys| == |s|
  {
    if s == {} then []
    else
      var m := Least(s);
      var rest := InOrder(s - {m});
      assert forall i :: 0 <= i < |rest| ==> rest[i] in s - {m};
      [m] + rest
  }

  /** There is only one such order, so iteration order is no choice. */
  lemma {:induction false} AscendingUnique(a: seq<Key>, s: set<Key>)
    requires Ascending(a) && forall k :: k in a <==> k in s
    ensures a == InOrder(s)
    decreases |a|
  {
    if a == [] {
      assert s == {};
    } else {
      var m, rest := a[0], a[1..];
      assert m in a;
      assert forall i :: 0 <= i < |rest| ==> rest[i] == a[i + 1];
      forall k ensures k in rest <==> k in s - {m} {
        if k in rest {
          LessTotal(m, k);
        } else if k in s {
          assert a == [m] + rest;
        }
      }
      assert IsLeast(m, s);
      LessTotal(m, Least(s));
      AscendingUnique(rest, s - {m});
    }
  }
}
