// The run-length codec that stands in for Snappy (savitri-core/src/compression.rs).
//
// The encoder writes a run of three or more equal bytes as MARK, byte, count and copies
// every other byte as it is, including a byte that happens to equal MARK. The decoder
// takes every MARK with at least two bytes after it for a run. The main results say
// exactly on which inputs decoding undoes encoding.
module RunLength {
  import opened ByteStrings

  const MARK: Byte := 0xFF

  function Repeat(b: Byte, n: nat): (r: seq<Byte>)
    ensures |r| == n && forall i :: 0 <= i < n ==> r[i] == b
  {
    if n == 0 then [] else [b] + Repeat(b, n - 1)
  }

  /** Number of leading bytes equal to `b`. */
  function Leading(b: Byte, s: seq<Byte>): (n: nat)
    ensures n <= |s|
  {
    if s == [] || s[0] != b then 0 else 1 + Leading(b, s[1..])
  }

  lemma {:induction false} LeadingIs(b: Byte, s: seq<Byte>)
    ensures forall i :: 0 <= i < Leading(b, s) ==> s[i] == b
    ensures Leading(b, s) == |s| || s[Leading(b, s)] != b
  {
    if s != [] && s[0] == b {
      LeadingIs(b, s[1..]);
    }
  }

  /** The run the encoder takes off the front: at most 255 bytes. */
  function RunLen(s: seq<Byte>): (n: nat)
    requires s != []
    ensures 1 <= n <= 255 && n <= |s|
  {
    var n := Leading(s[0], s);
    if n <= 255 then n else 255
  }

  function Chunk(b: Byte, n: nat): seq<Byte>
    requires n <= 255
  {
    if n >= 3 then [MARK, b, n] else Repeat(b, n)
  }

  function Encode(s: seq<Byte>): seq<Byte> {
    if s == [] then []
    else
      var n := RunLen(s);
      Chunk(s[0], n) + Encode(s[n..])
  }

  function Decode(s: seq<Byte>): seq<Byte> {
    if s == [] then []
    else if s[0] == MARK && 2 < |s| then Repeat(s[1], s[2]) + Decode(s[3..])
    else [s[0]] + Decode(s[1..])
  }

  /** What the fallback keeps: the encoding if that is shorter, else the data itself. */
  function Stored(s: seq<Byte>): seq<Byte> {
    if |Encode(s)| < |s| then Encode(s) else s
  }

  /** The format: a run of three to 255 equal bytes is written as 0xFF, the byte and the count, and read back so. */
  lemma FormatIs(b: Byte, n: nat)
    requires 3 <= n <= 255
    ensures Encode(Repeat(b, n)) == [0xFF, b, n] && Decode([0xFF, b, n]) == Repeat(b, n)
  {
    LeadingIs(b, Repeat(b, n));
    assert Repeat(b, n)[n..] == [];
    assert [MARK, b, n][3..] == [];
    assert Repeat(b, n) + [] == Repeat(b, n);
  }

  // ---------- The two loops of the source ----------

  lemma RunLenIs(s: seq<Byte>, n: nat)
    requires s != [] && 1 <= n <= 255 && n <= |s|
    requires forall k :: 0 <= k < n ==> s[k] == s[0]
    requires n == |s| || n == 255 || s[n] != s[0]
    ensures RunLen(s) == n
  {
    LeadingIs(s[0], s);
  }

  /** The longest run of up to 255 equal bytes at position i. */
  ghost predicate RunAt(data: seq<Byte>, i: nat, count: nat) {
    && 1 <= count <= 255 && i + count <= |data|
    && (forall k :: i <= k < i + count ==> data[k] == data[i])
    && (i + count == |data| || count == 255 || data[i + count] != data[i])
  }

  lemma EncodeAt(data: seq<Byte>, i: nat, count: nat)
    requires RunAt(data, i, count)
    ensures Encode(data[i..]) == Chunk(data[i], count) + Encode(data[i + count..])
  {
    RunLenIs(data[i..], count);
    assert data[i..][count..] == data[i + count..];
  }

  lemma DecodeAt(data: seq<Byte>, i: nat)
    requires i < |data|
    ensures data[i] == MARK && i + 2 < |data| ==>
              Decode(data[i..]) == Repeat(data[i + 1], data[i + 2]) + Decode(data[i + 3..])
    ensures !(data[i] == MARK && i + 2 < |data|) ==>
              Decode(data[i..]) == [data[i]] + Decode(data[i + 1..])
  {
    assert data[i..][1..] == data[i + 1..];
    if data[i] == MARK && i + 2 < |data| {
      assert data[i..][3..] == data[i + 3..];
    }
  }

  lemma Regroup(whole: seq<Byte>, done: seq<Byte>, rest: seq<Byte>, part: seq<Byte>, left: seq<Byte>)
    requires whole == done + rest && rest == part + left
    ensures whole == (done + part) + left
  {
  }

  ghost function EncodedFrom(data: seq<Byte>, i: nat): seq<Byte>
    requires i <= |data|
  {
    Encode(data[i..])
  }

  /** `done` is the encoding up to position i. */
  ghost predicate EncodedTo(data: seq<Byte>, done: seq<Byte>, i: nat) {
    i <= |data| && EncodedFrom(data, 0) == done + EncodedFrom(data, i)
  }

  lemma EncodedAll(data: seq<Byte>, done: seq<Byte>)
    requires EncodedTo(data, done, |data|)
    ensures done == Encode(data)
  {
    assert data[0..] == data && data[|data|..] == [];
  }

  /** One round of the encoder's loop. */
  lemma EncodeMore(data: seq<Byte>, done: seq<Byte>, i: nat, count: nat, more: seq<Byte>)
    requires RunAt(data, i, count)
    requires EncodedTo(data, done, i) && more == done + Chunk(data[i], count)
    ensures EncodedTo(data, more, i + count)
  {
    EncodeAt(data, i, count);
    Regroup(EncodedFrom(data, 0), done, EncodedFrom(data, i), Chunk(data[i], count), EncodedFrom(data, i + count));
  }

  /** One round of the decoder's loop. */
  lemma DecodeMore(data: seq<Byte>, done: seq<Byte>, i: nat)
    requires i < |data| && Decode(data) == done + Decode(data[i..])
    ensures data[i] == MARK && i + 2 < |data| ==>
              Decode(data) == (done + Repeat(data[i + 1], data[i + 2])) + Decode(data[i + 3..])
    ensures !(data[i] == MARK && i + 2 < |data|) ==>
              Decode(data) == (done + [data[i]]) + Decode(data[i + 1..])
  {
    DecodeAt(data, i);
    if data[i] == MARK && i + 2 < |data| {
      Regroup(Decode(data), done, Decode(data[i..]), Repeat(data[i + 1], data[i + 2]), Decode(data[i + 3..]));
    } else {
      Regroup(Decode(data), done, Decode(data[i..]), [data[i]], Decode(data[i + 1..]));
    }
  }

  method CountRun(data: seq<Byte>, i: nat) returns (count: nat)
    requires i < |data|
    ensures RunAt(data, i, count)
  {
    count := 1;
    while i + count < |data| && data[i + count] == data[i] && count < 255
      invariant 1 <= count <= 255 && i + count <= |data|
      invariant forall k :: i <= k < i + count ==> data[k] == data[i]
    {
      count := count + 1;
    }
  }

  method EmitChunk(current: Byte, count: nat) returns (chunk: seq<Byte>)
    requires count <= 255
    ensures chunk == Chunk(current, count)
  {
    if count >= 3 {
      chunk := [MARK, current, count];
    } else {
      chunk := [];
      for j := 0 to count
        invariant chunk == Repeat(current, j)
      {
        chunk := chunk + [current];
      }
    }
  }

  method CompressSnappy(data: seq<Byte>) returns (out: seq<Byte>)
    ensures out == Stored(data)
  {
    var compressed: seq<Byte> := [];
    var i := 0;
    while i < |data|
      invariant 0 <= i <= |data|
      invariant EncodedTo(data, compressed, i)
    {
      var count := CountRun(data, i);
      var chunk := EmitChunk(data[i], count);
      ghost var done := compressed;
      compressed := compressed + chunk;
      EncodeMore(data, done, i, count, compressed);
      i := i + count;
    }
    EncodedAll(data, compressed);
    out := if |compressed| < |data| then compressed else data;
  }

  method ExpandRun(value: Byte, count: nat) returns (run: seq<Byte>)
    ensures run == Repeat(value, count)
  {
    run := [];
    for j := 0 to count
      invariant run == Repeat(value, j)
    {
      run := run + [value];
    }
  }

  method DecompressSnappy(data: seq<Byte>) returns (out: seq<Byte>)
    ensures out == Decode(data)
  {
    out := [];
    var i := 0;
    while i < |data|
      invariant 0 <= i <= |data|
      invariant Decode(data) == out + Decode(data[i..])
    {
      DecodeMore(data, out, i);
      if data[i] == MARK && i + 2 < |data| {
        var run := ExpandRun(data[i + 1], data[i + 2]);
        out := out + run;
        i := i + 3;
      } else {
        out := out + [data[i]];
        i := i + 1;
      }
    }
  }

  // ---------- Cost of an encoding ----------

  function Cost(s: seq<Byte>): nat {
    |Encode(s)|
  }

  /** Bytes the encoder spends on a maximal run of length n. */
  function RunCost(n: nat): nat {
    if n < 3 then n else if n < 255 then 3 else 3 + RunCost(n - 255)
  }

  /** Some MARK is copied as a literal and two or more encoded bytes follow it. */
  predicate LooseMark(s: seq<Byte>) {
    s != [] &&
    var n := RunLen(s);
    || (s[0] == MARK && n < 3 && n + Cost(s[n..]) > 2)
    || LooseMark(s[n..])
  }

  /** What is left of a run of n once its full chunks of 255 are taken. */
  function Tail(n: nat): nat {
    if n < 255 then n else Tail(n - 255)
  }

  predicate LooseRun(b: Byte, n: nat, after: nat) {
    b == MARK && 1 <= Tail(n) <= 2 && Tail(n) + after > 2
  }

  lemma CostStep(s: seq<Byte>, n: nat)
    requires s != [] && 1 <= n <= 255 && n <= |s|
    requires forall k :: 0 <= k < n ==> s[k] == s[0]
    requires n == |s| || n == 255 || s[n] != s[0]
    ensures Cost(s) == (if n < 3 then n else 3) + Cost(s[n..])
    ensures LooseMark(s) == ((s[0] == MARK && n < 3 && n + Cost(s[n..]) > 2) || LooseMark(s[n..]))
  {
    RunLenIs(s, n);
  }

  /** The front of s is a run of n copies of b that nothing extends. */
  ghost predicate Maximal(s: seq<Byte>, b: Byte, n: nat) {
    n <= |s| && (forall k :: 0 <= k < n ==> s[k] == b) && (n == |s| || s[n] != b)
  }

  /** A run of n copies of b followed by y takes up s: what it costs and whether it leaves a loose mark. */
  ghost predicate Accounts(s: seq<Byte>, b: Byte, n: nat, y: seq<Byte>) {
    && Cost(s) == RunCost(n) + Cost(y)
    && LooseMark(s) == (LooseRun(b, n, Cost(y)) || LooseMark(y))
  }

  lemma ShortRun(b: Byte, n: nat, s: seq<Byte>)
    requires Maximal(s, b, n) && n < 255
    ensures Accounts(s, b, n, s[n..])
  {
    if n == 0 {
      assert s[n..] == s;
    } else {
      CostStep(s, n);
    }
  }

  lemma FullRun(b: Byte, n: nat, s: seq<Byte>, y: seq<Byte>)
    requires Maximal(s, b, n) && n >= 255 && Accounts(s[255..], b, n - 255, y)
    ensures Accounts(s, b, n, y)
  {
    CostStep(s, 255);
  }

  lemma {:induction false} MaximalRun(b: Byte, n: nat, s: seq<Byte>)
    requires Maximal(s, b, n)
    ensures Accounts(s, b, n, s[n..])
    decreases n
  {
    if n < 255 {
      ShortRun(b, n, s);
    } else {
      MaximalRun(b, n - 255, s[255..]);
      assert s[255..][n - 255..] == s[n..];
      FullRun(b, n, s, s[n..]);
    }
  }

  /** Prepending c copies of b to s, in terms of the leading run of s. */
  lemma Prepend(b: Byte, c: nat, s: seq<Byte>) returns (n: nat, y: seq<Byte>)
    ensures Accounts(s, b, n, y) && Accounts(Repeat(b, c) + s, b, c + n, y)
  {
    n := Leading(b, s);
    y := s[n..];
    LeadingIs(b, s);
    MaximalRun(b, n, s);
    MaximalLonger(b, c, n, s);
    MaximalRun(b, c + n, Repeat(b, c) + s);
  }

  lemma MaximalLonger(b: Byte, c: nat, n: nat, s: seq<Byte>)
    requires Maximal(s, b, n)
    ensures Maximal(Repeat(b, c) + s, b, c + n) && (Repeat(b, c) + s)[c + n..] == s[n..]
  {
  }

  lemma {:induction false} RunCostStep(b: Byte, n: nat, c: nat, after: nat)
    requires c <= 255
    ensures RunCost(c + n) <= RunCost(n) + 3
    ensures RunCost(1 + n) <= RunCost(n) + 1
    ensures LooseRun(b, c + n, after) && !LooseRun(b, n, after) ==> RunCost(c + n) <= RunCost(n) + 2
  {
    if n >= 255 {
      RunCostStep(b, n - 255, c, after);
    } else if c + n >= 255 {
      assert Tail(c + n) == c + n - 255;
    }
  }

  /** Size below which no stream that decodes to s can be. */
  function Floor(s: seq<Byte>): nat {
    Cost(s) + if LooseMark(s) then 1 else 0
  }

  lemma FloorRun(b: Byte, c: nat, s: seq<Byte>)
    requires c <= 255
    ensures Floor(Repeat(b, c) + s) <= Floor(s) + 3
  {
    var n, y := Prepend(b, c, s);
    RunCostStep(b, n, c, Cost(y));
  }

  lemma FloorLiteral(b: Byte, s: seq<Byte>)
    requires b != MARK
    ensures Floor([b] + s) <= Floor(s) + 1
  {
    var n, y := Prepend(b, 1, s);
    RunCostStep(b, n, 1, Cost(y));
    assert Repeat(b, 1) + s == [b] + s;
  }

  /** No stream decodes to x in fewer bytes than Encode(x) has, and a stream that decodes
      to an x with a loose mark is strictly longer than Encode(x). */
  lemma {:induction false} DecodeCost(s: seq<Byte>)
    ensures |s| >= Floor(Decode(s))
  {
    if s != [] {
      if s[0] == MARK && 2 < |s| {
        DecodeCost(s[3..]);
        FloorRun(s[1], s[2], Decode(s[3..]));
      } else if s[0] != MARK {
        DecodeCost(s[1..]);
        FloorLiteral(s[0], Decode(s[1..]));
      } else {
        DecodeShort(s);
        ShortStream(s);
      }
    }
  }

  lemma DecodeShort(s: seq<Byte>)
    requires |s| <= 2
    ensures Decode(s) == s
  {
    if |s| == 2 {
      assert s[1..] == [s[1]];
      assert s[1..][1..] == [];
    }
  }

  lemma ShortStream(s: seq<Byte>)
    requires |s| <= 2
    ensures Cost(s) <= |s| && !LooseMark(s)
  {
    if s != [] {
      var n := RunLen(s);
      assert s[n..] == [] || (|s[n..]| == 1 && n == 1);
      if s[n..] != [] {
        assert RunLen(s[n..]) == 1;
        assert s[n..][1..] == [];
      }
    }
  }

  // ---------- Round trip of the encoded form ----------

  lemma RunSplits(s: seq<Byte>)
    requires s != []
    ensures s == Repeat(s[0], RunLen(s)) + s[RunLen(s)..]
  {
    LeadingIs(s[0], s);
  }

  lemma {:induction false} DecodeEncode(s: seq<Byte>)
    requires !LooseMark(s)
    ensures Decode(Encode(s)) == s
  {
    if s != [] {
      var n := RunLen(s);
      DecodeEncode(s[n..]);
      DecodeChunk(s[0], n, Encode(s[n..]));
      RunSplits(s);
    }
  }

  lemma DecodeChunk(b: Byte, n: nat, e: seq<Byte>)
    requires 1 <= n <= 255
    requires b == MARK && n < 3 ==> n + |e| <= 2
    ensures Decode(Chunk(b, n) + e) == Repeat(b, n) + Decode(e)
  {
    if n >= 3 {
      DecodeRun(b, n, e);
    } else {
      DecodeCopies(b, n, e);
    }
  }

  lemma {:induction false} DecodeCopies(b: Byte, n: nat, e: seq<Byte>)
    requires b != MARK || n + |e| <= 2
    ensures Decode(Repeat(b, n) + e) == Repeat(b, n) + Decode(e)
  {
    if n == 0 {
      assert Repeat(b, n) + e == e;
    } else {
      var tail := Repeat(b, n - 1);
      DecodeCopies(b, n - 1, e);
      DecodeLiteral(b, tail + e);
      assert Repeat(b, n) + e == [b] + (tail + e);
      assert Repeat(b, n) + Decode(e) == [b] + (tail + Decode(e));
    }
  }

  lemma DecodeRun(b: Byte, n: Byte, e: seq<Byte>)
    ensures Decode([MARK, b, n] + e) == Repeat(b, n) + Decode(e)
  {
    assert ([MARK, b, n] + e)[3..] == e;
  }

  lemma DecodeLiteral(b: Byte, e: seq<Byte>)
    requires b != MARK || |e| <= 1
    ensures Decode([b] + e) == [b] + Decode(e)
  {
    assert ([b] + e)[1..] == e;
  }

  /** Decoding undoes encoding exactly when no literal MARK is loose. */
  lemma RoundTripEncoded(s: seq<Byte>)
    ensures Decode(Encode(s)) == s <==> !LooseMark(s)
  {
    DecodeCost(Encode(s));
    if !LooseMark(s) {
      DecodeEncode(s);
    }
  }

  // ---------- Round trip of data that was stored unencoded ----------

  predicate HasOther(q: seq<Byte>) {
    exists k :: 0 <= k < |q| && q[k] != MARK
  }

  /** The decoder reads v while q bytes behind: once something other than MARK is owed, it never
      catches up. */
  lemma {:induction false} NeverCatchesUp(q: seq<Byte>, v: seq<Byte>)
    requires HasOther(q)
    ensures Decode(v) != q + v
    decreases |v|
  {
    if |v| <= 2 {
      DecodeShort(v);
      assert |q + v| > |v|;
    } else if v[0] != MARK {
      ByteBehind(q, v, Decode(v[1..]));
      if q[0] == v[0] {
        Rotate(q);
        NeverCatchesUp(q[1..] + [v[0]], v[1..]);
      }
    } else {
      var b, c := v[1], v[2];
      if c > |q| {
        Overrun(q, b, c, Decode(v[3..]), v);
      } else {
        RunBehind(q, b, c, v, Decode(v[3..]));
        if q[..c] == Repeat(b, c) {
          StillOwed(q, b, c);
          NeverCatchesUp((q + [MARK, b, c])[c..], v[3..]);
        }
      }
    }
  }

  /** The byte put out is the first of those owed, and what follows is one byte further. */
  lemma ByteBehind(q: seq<Byte>, v: seq<Byte>, d: seq<Byte>)
    requires q != [] && v != []
    ensures [v[0]] + d == q + v ==> q[0] == v[0] && d == (q[1..] + [v[0]]) + v[1..]
  {
    if [v[0]] + d == q + v {
      assert ([v[0]] + d)[0] == (q + v)[0];
      assert d == ([v[0]] + d)[1..] == (q + v)[1..];
      assert (q + v)[1..] == (q[1..] + [v[0]]) + v[1..];
    }
  }

  /** The same for a run. */
  lemma RunBehind(q: seq<Byte>, b: Byte, c: Byte, v: seq<Byte>, d: seq<Byte>)
    requires c <= |q| && |v| >= 3 && v[0] == MARK && v[1] == b && v[2] == c
    ensures Repeat(b, c) + d == q + v ==> q[..c] == Repeat(b, c) && d == (q + [MARK, b, c])[c..] + v[3..]
  {
    var out, owed := Repeat(b, c) + d, q + [MARK, b, c];
    if out == q + v {
      assert q + v == owed + v[3..];
      assert Repeat(b, c) == out[..c] == (q + v)[..c] == q[..c];
      assert d == out[c..] == (owed + v[3..])[c..] == owed[c..] + v[3..];
    }
  }

  lemma Rotate(q: seq<Byte>)
    requires HasOther(q)
    ensures HasOther(q[1..] + [q[0]])
  {
    var k :| 0 <= k < |q| && q[k] != MARK;
    var r := q[1..] + [q[0]];
    assert r[if k == 0 then |q| - 1 else k - 1] == q[k];
  }

  lemma Overrun(q: seq<Byte>, b: Byte, c: Byte, d: seq<Byte>, v: seq<Byte>)
    requires HasOther(q) && c > |q| && v != [] && v[0] == MARK
    ensures Repeat(b, c) + d != q + v
  {
    var k :| 0 <= k < |q| && q[k] != MARK;
    assert (q + v)[k] == q[k] && (q + v)[|q|] == MARK;
    assert (Repeat(b, c) + d)[k] == b && (Repeat(b, c) + d)[|q|] == b;
  }

  lemma StillOwed(q: seq<Byte>, b: Byte, c: Byte)
    requires HasOther(q) && c <= |q| && q[..c] == Repeat(b, c)
    ensures HasOther((q + [MARK, b, c])[c..])
  {
    var k :| 0 <= k < |q| && q[k] != MARK;
    var m := |q| - c;
    var r := (q + [MARK, b, c])[c..];
    assert r[m + 1] == b && r[m + 2] == c;
    if b == MARK {
      assert forall i :: 0 <= i < c ==> q[..c][i] == MARK;
      assert r[k - c] == q[k];
    }
  }

  lemma RepeatShift(b: Byte, n: nat, m: nat, k: nat)
    requires k <= n + m
    ensures Repeat(b, n) + Repeat(b, m) == Repeat(b, k) + Repeat(b, n + m - k)
  {
  }

  lemma ManyMarks(v: seq<Byte>)
    ensures Repeat(MARK, MARK) + Decode(v) != [MARK, MARK, MARK] + v
  {
    var d := Decode(v);
    Flooded(252, v);
    RepeatShift(MARK, 255, 0, 3);
    assert Repeat(MARK, 255) + d == Repeat(MARK, 3) + (Repeat(MARK, 252) + d);
    Cancel([MARK, MARK, MARK], v, Repeat(MARK, 252) + d);
  }

  lemma FloodMore(j: nat, v: seq<Byte>)
    requires |v| >= 3 && v[0] == v[1] == v[2] == MARK
    ensures Repeat(MARK, j) + Decode(v) == Repeat(MARK, 3) + (Repeat(MARK, j + 252) + Decode(v[3..]))
  {
    var rest := Decode(v[3..]);
    assert Decode(v) == Repeat(MARK, 255) + rest;
    RepeatShift(MARK, j, 255, 3);
    assert Repeat(MARK, j) + (Repeat(MARK, 255) + rest) == (Repeat(MARK, j) + Repeat(MARK, 255)) + rest;
    assert (Repeat(MARK, 3) + Repeat(MARK, j + 252)) + rest == Repeat(MARK, 3) + (Repeat(MARK, j + 252) + rest);
  }

  /** A decoder that has already put out three marks too many never falls back in step. */
  lemma {:induction false} Flooded(j: nat, v: seq<Byte>)
    requires j >= 3
    ensures v != Repeat(MARK, j) + Decode(v)
    decreases |v|
  {
    var out := Repeat(MARK, j) + Decode(v);
    assert out[0] == MARK && out[1] == MARK && out[2] == MARK;
    if |v| >= 3 && v[0] == v[1] == v[2] == MARK {
      Flooded(j + 252, v[3..]);
      FloodMore(j, v);
      assert v == Repeat(MARK, 3) + v[3..];
    }
  }

  lemma Cancel(p: seq<Byte>, a: seq<Byte>, b: seq<Byte>)
    ensures p + a == p + b <==> a == b
  {
    assert (p + a)[|p|..] == a && (p + b)[|p|..] == b;
  }

  lemma FewMarks(c: Byte, v: seq<Byte>)
    requires 1 <= c <= 2
    ensures Repeat(MARK, c) + Decode(v) != [MARK, MARK, c] + v
  {
    var owed := Repeat(MARK, 2 - c) + [c];
    assert owed[2 - c] != MARK;
    NeverCatchesUp(owed, v);
    assert [MARK, MARK, c] + v == Repeat(MARK, c) + (owed + v);
    Cancel(Repeat(MARK, c), Decode(v), owed + v);
  }

  lemma LeadingMark(b: Byte, c: Byte, v: seq<Byte>)
    ensures Repeat(b, c) + Decode(v) != [MARK, b, c] + v
  {
    var out := Repeat(b, c) + Decode(v);
    var x := [MARK, b, c] + v;
    if c == 0 {
      assert [MARK, b, c][2] != MARK;
      NeverCatchesUp([MARK, b, c], v);
      assert out == Decode(v);
    } else if b != MARK {
      assert out[0] == b && x[0] == MARK;
    } else if c <= 2 {
      FewMarks(c, v);
    } else if c != MARK {
      assert out[2] == b && x[2] == c;
    } else {
      ManyMarks(v);
    }
  }

  /** Some MARK has two or more bytes after it. */
  predicate EarlyMark(x: seq<Byte>) {
    exists p :: 0 <= p < |x| - 2 && x[p] == MARK
  }

  /** Decoding leaves data that was never encoded alone exactly when no MARK is early. */
  lemma {:induction false} RoundTripRaw(x: seq<Byte>)
    ensures Decode(x) == x <==> !EarlyMark(x)
  {
    if |x| <= 2 {
      DecodeShort(x);
    } else if x[0] == MARK {
      LeadingMark(x[1], x[2], x[3..]);
      assert x == [x[0], x[1], x[2]] + x[3..];
    } else {
      RoundTripRaw(x[1..]);
      assert x == [x[0]] + x[1..];
      if EarlyMark(x) {
        var p :| 0 <= p < |x| - 2 && x[p] == MARK;
        assert x[1..][p - 1] == MARK;
      }
      if EarlyMark(x[1..]) {
        var p :| 0 <= p < |x[1..]| - 2 && x[1..][p] == MARK;
        assert x[p + 1] == MARK;
      }
    }
  }

  // ---------- The public interface ----------

  datatype Algorithm = NoCompression | Snappy | Zstd | Lz4

  datatype Config = Config(algorithm: Algorithm, minSize: nat)

  datatype Outcome = Data(bytes: seq<Byte>) | Unavailable

  /** Built without the snap, zstd and lz4 features. */
  function Compress(data: seq<Byte>, config: Config): Outcome {
    if |data| < config.minSize then Data(data)
    else match config.algorithm
      case NoCompression => Data(data)
      case Snappy => Data(Stored(data))
      case Zstd => Unavailable
      case Lz4 => Unavailable
  }

  function Decompress(data: seq<Byte>, algorithm: Algorithm): Outcome {
    match algorithm
    case NoCompression => Data(data)
    case Snappy => Data(Decode(data))
    case Zstd => Unavailable
    case Lz4 => Unavailable
  }

  /** Nothing comes out exactly for data of at least the threshold under an algorithm that is not built in; smaller data
      comes out as it is under every algorithm, and otherwise what comes out is the shorter of data and encoding. */
  lemma CompressIs(data: seq<Byte>, config: Config)
    ensures
      var r := Compress(data, config);
      && (r == Unavailable <==> |data| >= config.minSize && config.algorithm in {Zstd, Lz4})
      && (|data| < config.minSize ==> r == Data(data))
      && (r.Data? ==> r.bytes == data || (config.algorithm == Snappy && r.bytes == Encode(data) && |r.bytes| < |data|))
      && (config.algorithm == Snappy && |data| >= config.minSize ==> |r.bytes| <= |Encode(data)|)
  {
  }

  /** The inputs the codec gives back unchanged, as a test on the input alone. */
  predicate Restorable(data: seq<Byte>, config: Config) {
    match config.algorithm
    case NoCompression => true
    case Snappy =>
      if |data| < config.minSize || Cost(data) >= |data| then !EarlyMark(data) else !LooseMark(data)
    case Zstd => false
    case Lz4 => false
  }

  lemma RoundTrip(data: seq<Byte>, config: Config)
    ensures
      var stored := Compress(data, config);
      (stored.Data? && Decompress(stored.bytes, config.algorithm) == Data(data)) <==> Restorable(data, config)
  {
    RoundTripRaw(data);
    RoundTripEncoded(data);
  }

  lemma {:induction false} UnmarkedNeverLoose(data: seq<Byte>)
    requires MARK !in data
    ensures !LooseMark(data)
  {
    if data != [] {
      UnmarkedNeverLoose(data[RunLen(data)..]);
    }
  }

  /** Data without the byte 0xFF always survives, for every threshold. */
  lemma UnmarkedRoundTrip(data: seq<Byte>, minSize: nat)
    requires MARK !in data
    ensures Restorable(data, Config(Snappy, minSize))
  {
    UnmarkedNeverLoose(data);
  }

  lemma {:induction false} CostBounds(s: seq<Byte>)
    ensures Cost(s) <= |s| <= 85 * Cost(s)
  {
    if s != [] {
      CostBounds(s[RunLen(s)..]);
    }
  }

  /** Storing never grows the data and never shrinks it more than 85 times. */
  lemma StoredSize(data: seq<Byte>, config: Config)
    ensures
      var stored := Compress(data, config);
      stored.Data? ==> |stored.bytes| <= |data| <= 85 * |stored.bytes|
  {
    CostBounds(data);
  }

  /** A three byte message that comes back as one byte. */
  lemma MarkLost()
    ensures Compress([MARK, 2, 1], Config(Snappy, 1024)) == Data([MARK, 2, 1])
    ensures Decompress([MARK, 2, 1], Snappy) == Data([2])
  {
    DecodeRun(2, 1, []);
    assert [MARK, 2, 1] + [] == [MARK, 2, 1];
    assert Repeat(2, 1) + Decode([]) == [2];
  }
}
