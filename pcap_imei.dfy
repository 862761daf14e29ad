/**
 * The IMEI scanner of the NB-IoT capture note (`pcap_imei_parser.c`): a byte
 * stream is searched for a three-byte prefix, the four bytes after it are
 * captured, and the 64-bit value made of prefix and capture is added to a
 * de-duplicating, append-only array.
 *
 * The prefix is a parameter; `SourcePrefix` is the one the program is built
 * with. The stream is the byte sequence `fgetc` would deliver before `EOF`.
 */
module PcapImei {

  import opened Wrappers

  /** `UNIQUE_IMEI_SIZE`: the capacity of the IMEI array. */
  const UniqueImeiSize: nat := 256

  /** `FIRST_BYTE`, `SECOND_BYTE`, `THIRD_BYTE`. */
  datatype Prefix = Prefix(first: bv8, second: bv8, third: bv8)

  /** The prefix the program defines: all three bytes are 0xFF. */
  const SourcePrefix := Prefix(0xFF, 0xFF, 0xFF)

  /** The eight bytes of `v`, most significant first. */
  function Octets(v: bv64): (bs: seq<bv8>)
    ensures |bs| == 8
  {
    [ (v >> 56) as bv8, ((v >> 48) & 0xFF) as bv8, ((v >> 40) & 0xFF) as bv8, ((v >> 32) & 0xFF) as bv8,
      ((v >> 24) & 0xFF) as bv8, ((v >> 16) & 0xFF) as bv8, ((v >> 8) & 0xFF) as bv8, (v & 0xFF) as bv8 ]
  }

  /** A value is determined by its eight bytes. */
  lemma OctetsInjective(v: bv64, w: bv64)
    requires Octets(v) == Octets(w)
    ensures v == w
  {
    var a, b := Octets(v), Octets(w);
    assert a[0] == b[0] && a[1] == b[1] && a[2] == b[2] && a[3] == b[3];
    assert a[4] == b[4] && a[5] == b[5] && a[6] == b[6] && a[7] == b[7];
  }

  /** The value handed to `unique_imei_insert` for prefix `p` and captured bytes `c`: it fits in 56 bits. */
  function Assemble(p: Prefix, c: seq<bv8>): (v: bv64)
    requires |c| == 4
    ensures v < 0x0100_0000_0000_0000
  {
    ((p.first as bv64) << 48) | ((p.second as bv64) << 40) | ((p.third as bv64) << 32)
    | ((c[0] as bv64) << 24) | ((c[1] as bv64) << 16) | ((c[2] as bv64) << 8) | (c[3] as bv64)
  }

  /**
   * The prefix lands in bits 55-32 and the four captured bytes in bits 31-0,
   * the first captured byte most significant; the top byte is zero.
   */
  lemma AssembleLayout(p: Prefix, c: seq<bv8>)
    requires |c| == 4
    ensures Octets(Assemble(p, c)) == [0, p.first, p.second, p.third, c[0], c[1], c[2], c[3]]
  {
  }

  /** Different prefixes or captures never give the same value. */
  lemma AssembleInjective(p: Prefix, c: seq<bv8>, q: Prefix, d: seq<bv8>)
    requires |c| == 4 && |d| == 4
    requires Assemble(p, c) == Assemble(q, d)
    ensures p == q && c == d
  {
    AssembleLayout(p, c);
    AssembleLayout(q, d);
    var a, b := Octets(Assemble(p, c)), Octets(Assemble(q, d));
    assert a[1] == b[1] && a[2] == b[2] && a[3] == b[3];
    assert c == [a[4], a[5], a[6], a[7]] && d == [b[4], b[5], b[6], b[7]];
  }

  /**
   * The scanner's state between two bytes: the match counter `cnt`, the local
   * capture buffer, and the values passed to `unique_imei_insert` so far.
   */
  datatype Scan = Scan(cnt: nat, captured: seq<bv8>, found: seq<bv64>)

  predicate ScanWf(s: Scan) {
    s.cnt <= 6 && |s.captured| == 4
  }

  /** `cnt = 0` and `uint8_t imei_buffer[4] = {0}`, nothing found yet. */
  const ScanStart := Scan(0, [0, 0, 0, 0], [])

  /** One turn of the `while ((b = fgetc(fin)) != EOF)` loop, branch for branch. */
  function Step(p: Prefix, s: Scan, b: bv8): (r: Scan)
    requires ScanWf(s)
    ensures ScanWf(r)
    // the counter climbs by at most one per byte
    ensures r.cnt <= s.cnt + 1
    // a value is recorded only as the counter drops from 6 to 0, and then exactly one
    ensures r.found != s.found ==> s.cnt == 6 && r.cnt == 0 && |r.found| == |s.found| + 1
  {
    if b == p.first then s.(cnt := 1)
    else if b == p.second && s.cnt == 1 then s.(cnt := 2)
    else if b == p.third && s.cnt == 2 then s.(cnt := 3)
    else if 3 <= s.cnt <= 5 then s.(captured := s.captured[s.cnt - 3 := b], cnt := s.cnt + 1)
    else if s.cnt == 6 then
      var c := s.captured[3 := b];
      Scan(0, c, s.found + [Assemble(p, c)])
    else s.(cnt := 0)
  }

  /** What one byte does to the counter and to the values recorded. */
  lemma StepSpec(p: Prefix, s: Scan, b: bv8)
    requires ScanWf(s)
    // the first prefix byte always restarts matching, even in the middle of a capture
    ensures b == p.first ==> Step(p, s, b).cnt == 1
    // the byte after three captured ones completes the value, which is recorded once, and matching starts over
    ensures b != p.first && s.cnt == 6 ==>
      Step(p, s, b).cnt == 0 && Step(p, s, b).found == s.found + [Assemble(p, s.captured[3 := b])]
    // every other byte records nothing
    ensures b == p.first || s.cnt != 6 ==> Step(p, s, b).found == s.found
    // a byte that neither continues the prefix nor is captured resets the counter
    ensures b != p.first && !(b == p.second && s.cnt == 1) && !(b == p.third && s.cnt == 2) && !(3 <= s.cnt <= 6)
      ==> Step(p, s, b).cnt == 0
  {
  }

  /** One byte acts on the counter and the captured bytes alone; what it records is appended to `found`. */
  lemma StepShift(p: Prefix, s: Scan, b: bv8)
    requires ScanWf(s)
    ensures var l := Step(p, s.(found := []), b); Step(p, s, b) == Scan(l.cnt, l.captured, s.found + l.found)
  {
  }

  /** The loop run over the remaining bytes `bs`. */
  function Steps(p: Prefix, s: Scan, bs: seq<bv8>): (r: Scan)
    requires ScanWf(s)
    ensures ScanWf(r)
    // values once recorded stay recorded, in order
    ensures |s.found| <= |r.found| && r.found[..|s.found|] == s.found
    decreases |bs|
  {
    if bs == [] then s
    else
      StepSpec(p, s, bs[0]);
      Steps(p, Step(p, s, bs[0]), bs[1..])
  }

  /** Over the bytes `bs`, the counter and seven times the number of values recorded grow by at most `|bs|`. */
  lemma {:induction false} StepsBudget(p: Prefix, s: Scan, bs: seq<bv8>)
    requires ScanWf(s)
    ensures 7 * |Steps(p, s, bs).found| + Steps(p, s, bs).cnt <= 7 * |s.found| + s.cnt + |bs|
    decreases |bs|
  {
    if bs != [] {
      // the counter climbs by at most one per byte, and a value is recorded only as it drops from 6 to 0
      var s1 := Step(p, s, bs[0]);
      assert 7 * |s1.found| + s1.cnt <= 7 * |s.found| + s.cnt + 1;
      StepsBudget(p, s1, bs[1..]);
    }
  }

  /** The values `parser` hands to `unique_imei_insert` for the stream `bs`, in order: each takes seven bytes. */
  function Scanned(p: Prefix, bs: seq<bv8>): (found: seq<bv64>)
    ensures 7 * |found| <= |bs|
  {
    StepsBudget(p, ScanStart, bs);
    Steps(p, ScanStart, bs).found
  }

  /**
   * With the program's own prefix every 0xFF byte takes the first branch, so
   * the counter never leaves {0, 1} and nothing is ever recorded.
   */
  lemma {:induction false} SourcePrefixStaysIdle(s: Scan, bs: seq<bv8>)
    requires ScanWf(s) && s.cnt <= 1
    ensures Steps(SourcePrefix, s, bs).cnt <= 1
    ensures Steps(SourcePrefix, s, bs).found == s.found
    decreases |bs|
  {
    if bs != [] {
      StepSpec(SourcePrefix, s, bs[0]);
      SourcePrefixStaysIdle(Step(SourcePrefix, s, bs[0]), bs[1..]);
    }
  }

  /** The program as written records no IMEI from any stream. */
  lemma SourcePrefixRecordsNothing(bs: seq<bv8>)
    ensures Scanned(SourcePrefix, bs) == []
  {
    SourcePrefixStaysIdle(ScanStart, bs);
  }

  /** "FF FF FF 01 02 03 04" holds a complete match, yet nothing is recorded. */
  lemma SourcePrefixMissesMatch()
    ensures Scanned(SourcePrefix, [0xFF, 0xFF, 0xFF, 0x01, 0x02, 0x03, 0x04]) == []
  {
    SourcePrefixRecordsNothing([0xFF, 0xFF, 0xFF, 0x01, 0x02, 0x03, 0x04]);
  }

  /** The prefix can be matched: no byte after the first repeats it. */
  predicate Matchable(p: Prefix) {
    p.second != p.first && p.third != p.first
  }

  /** Running the loop over `a + b` is running it over `a`, then over `b`. */
  lemma {:induction false} StepsAppend(p: Prefix, s: Scan, a: seq<bv8>, b: seq<bv8>)
    requires ScanWf(s)
    ensures Steps(p, s, a + b) == Steps(p, Steps(p, s, a), b)
    decreases |a|
  {
    if a == [] {
      assert a + b == b;
    } else {
      assert (a + b)[0] == a[0] && (a + b)[1..] == a[1..] + b;
      StepsAppend(p, Step(p, s, a[0]), a[1..], b);
    }
  }

  /** The loop over `[b] + rest` is one step, then the loop over `rest`. */
  lemma StepsCons(p: Prefix, s: Scan, b: bv8, rest: seq<bv8>)
    requires ScanWf(s)
    ensures Steps(p, s, [b] + rest) == Steps(p, Step(p, s, b), rest)
  {
    assert ([b] + rest)[1..] == rest;
  }

  /** The three prefix bytes bring any state to the start of a capture. */
  lemma PrefixStartsCapture(p: Prefix, s: Scan, rest: seq<bv8>)
    requires Matchable(p) && ScanWf(s)
    ensures var s3 := Step(p, Step(p, Step(p, s, p.first), p.second), p.third);
      s3.cnt == 3 && s3.found == s.found
      && Steps(p, s, [p.first, p.second, p.third] + rest) == Steps(p, s3, rest)
  {
    var s1 := Step(p, s, p.first);
    var s2 := Step(p, s1, p.second);
    StepsCons(p, s, p.first, [p.second, p.third] + rest);
    StepsCons(p, s1, p.second, [p.third] + rest);
    StepsCons(p, s2, p.third, rest);
    assert [p.first, p.second, p.third] + rest == [p.first] + ([p.second, p.third] + rest);
    assert [p.second, p.third] + rest == [p.second] + ([p.third] + rest);
  }

  /** Four bytes that do not restart the match, from `cnt == 3`, complete one value. */
  lemma CaptureCompletes(p: Prefix, s: Scan, c: seq<bv8>)
    requires ScanWf(s) && s.cnt == 3
    requires |c| == 4 && p.first !in c
    ensures Steps(p, s, c) == Scan(0, c, s.found + [Assemble(p, c)])
  {
    var s4 := Step(p, s, c[0]);
    var s5 := Step(p, s4, c[1]);
    var s6 := Step(p, s5, c[2]);
    assert s4 == Scan(4, s.captured[0 := c[0]], s.found);
    assert s5 == Scan(5, s.captured[0 := c[0]][1 := c[1]], s.found);
    assert s6 == Scan(6, s.captured[0 := c[0]][1 := c[1]][2 := c[2]], s.found);
    assert s6.captured[3 := c[3]] == c;
    assert Steps(p, s, c) == Steps(p, s4, c[1..]);
    assert c[1..][0] == c[1] && c[1..][1..] == c[2..];
    assert Steps(p, s4, c[1..]) == Steps(p, s5, c[2..]);
    assert c[2..][0] == c[2] && c[2..][1..] == c[3..];
    assert Steps(p, s5, c[2..]) == Steps(p, s6, c[3..]);
    assert c[3..][0] == c[3] && c[3..][1..] == [];
    assert Steps(p, s6, c[3..]) == Step(p, s6, c[3]);
  }

  /**
   * With a matchable prefix, the prefix followed by four bytes that do not
   * restart the match records exactly the assembled value, from any state,
   * and leaves the counter at 0.
   */
  lemma MatchRecordsImei(p: Prefix, s: Scan, c: seq<bv8>)
    requires Matchable(p) && ScanWf(s)
    requires |c| == 4 && p.first !in c
    ensures Steps(p, s, [p.first, p.second, p.third] + c).found == s.found + [Assemble(p, c)]
    ensures Steps(p, s, [p.first, p.second, p.third] + c).cnt == 0
  {
    PrefixStartsCapture(p, s, c);
    var s3 := Step(p, Step(p, Step(p, s, p.first), p.second), p.third);
    CaptureCompletes(p, s3, c);
  }

  /** The scan of a stream that is one matchable IMEI record. */
  lemma ScannedSingleRecord(p: Prefix, c: seq<bv8>)
    requires Matchable(p) && |c| == 4 && p.first !in c
    ensures Scanned(p, [p.first, p.second, p.third] + c) == [Assemble(p, c)]
  {
    MatchRecordsImei(p, ScanStart, c);
  }

  /** `xs` holds no value twice. */
  predicate NoDuplicates(xs: seq<bv64>) {
    forall i, j :: 0 <= i < j < |xs| ==> xs[i] != xs[j]
  }

  /** What `unique_imei_insert` does to the stored values. */
  function InsertUnique(xs: seq<bv64>, v: bv64): (ys: seq<bv64>)
    ensures v in ys && (forall w :: w in ys <==> w in xs || w == v)
    ensures NoDuplicates(xs) ==> NoDuplicates(ys)
    ensures v in xs ==> ys == xs
    ensures v !in xs ==> |ys| == |xs| + 1 && ys[..|xs|] == xs
  {
    if v in xs then xs else xs + [v]
  }

  /** The stored values after inserting `vs` one after the other: never drops or reorders one, and grows by at most one per insert. */
  function InsertAll(xs: seq<bv64>, vs: seq<bv64>): (ys: seq<bv64>)
    ensures |xs| <= |ys| <= |xs| + |vs|
    ensures ys[..|xs|] == xs
    decreases |vs|
  {
    if vs == [] then xs
    else
      var zs := InsertAll(InsertUnique(xs, vs[0]), vs[1..]);
      assert zs[..|xs|] == zs[..|InsertUnique(xs, vs[0])|][..|xs|];
      zs
  }

  /** Inserting a sequence keeps the values unique. */
  lemma {:induction false} InsertAllSpec(xs: seq<bv64>, vs: seq<bv64>)
    requires NoDuplicates(xs)
    ensures NoDuplicates(InsertAll(xs, vs))
    decreases |vs|
  {
    if vs != [] {
      InsertAllSpec(InsertUnique(xs, vs[0]), vs[1..]);
    }
  }

  /** After inserting `vs`, exactly the old values and those of `vs` are stored. */
  lemma {:induction false} InsertAllMembers(xs: seq<bv64>, vs: seq<bv64>)
    ensures forall w :: w in InsertAll(xs, vs) <==> w in xs || w in vs
    decreases |vs|
  {
    if vs != [] {
      InsertAllMembers(InsertUnique(xs, vs[0]), vs[1..]);
      assert vs == [vs[0]] + vs[1..];
      assert forall w :: w in vs <==> w == vs[0] || w in vs[1..];
    }
  }

  /** Inserting `a + b` is inserting `a`, then `b`. */
  lemma {:induction false} InsertAllAppend(xs: seq<bv64>, a: seq<bv64>, b: seq<bv64>)
    ensures InsertAll(xs, a + b) == InsertAll(InsertAll(xs, a), b)
    decreases |a|
  {
    if a == [] {
      assert a + b == b;
    } else {
      assert (a + b)[0] == a[0] && (a + b)[1..] == a[1..] + b;
      InsertAllAppend(InsertUnique(xs, a[0]), a[1..], b);
    }
  }

  /** Inserting values that are all stored already changes nothing. */
  lemma {:induction false} InsertAllPresent(xs: seq<bv64>, vs: seq<bv64>)
    requires forall v :: v in vs ==> v in xs
    ensures InsertAll(xs, vs) == xs
    decreases |vs|
  {
    if vs != [] {
      assert vs[0] in vs;
      assert forall v :: v in vs[1..] ==> v in vs;
      InsertAllPresent(xs, vs[1..]);
    }
  }

  /** Scanning the same stream into the array a second time adds nothing. */
  lemma InsertAllIdempotent(xs: seq<bv64>, vs: seq<bv64>)
    requires NoDuplicates(xs)
    ensures InsertAll(InsertAll(xs, vs), vs) == InsertAll(xs, vs)
  {
    InsertAllMembers(xs, vs);
    InsertAllPresent(InsertAll(xs, vs), vs);
  }

  /** The global `unique_imei`: a fixed buffer and the number of values stored in it. */
  class ImeiArray {
    const data: array<bv64>
    var length: nat

    ghost predicate Valid()
      reads this, data
    {
      data.Length == UniqueImeiSize && length <= data.Length && NoDuplicates(data[..length])
    }

    /** `data[0..length)`. */
    ghost function Contents(): seq<bv64>
      reads this, data
      requires length <= data.Length
    {
      data[..length]
    }

    /** `imei_buffer` with `.length = 0`. */
    constructor ()
      ensures Valid() && Contents() == [] && fresh(data)
    {
      data := new bv64[UniqueImeiSize];
      length := 0;
    }

    /**
     * `unique_imei_insert`: a linear search for `imei`, and an append when it
     * is absent. The source writes past the buffer when it is full; the
     * precondition rules that out.
     */
    method Insert(imei: bv64)
      requires Valid()
      requires length < UniqueImeiSize || imei in Contents()
      modifies this`length, data
      ensures Valid()
      ensures Contents() == InsertUnique(old(Contents()), imei)
      ensures imei in old(Contents()) ==> data[..] == old(data[..]) && length == old(length)
      ensures imei !in old(Contents()) ==> data[..] == old(data[..])[old(length) := imei] && length == old(length) + 1
    {
      var i := 0;
      while i < length && i < UniqueImeiSize
        invariant 0 <= i <= length
        invariant forall j :: 0 <= j < i ==> data[j] != imei
      {
        if data[i] == imei {
          return;
        }
        i := i + 1;
      }
      data[length] := imei;
      length := length + 1;
      assert data[..length] == old(data[..length]) + [imei];
    }
  }

  /**
   * `parser`: a missing file (`NULL`) leaves the array alone; otherwise every
   * byte goes through the state machine and each completed value is inserted.
   * The source does not bound the number of distinct values; the
   * precondition keeps them within the array.
   */
  method Parser(fin: Option<seq<bv8>>, p: Prefix, store: ImeiArray)
    requires store.Valid()
    requires fin.Some? ==> |InsertAll(store.Contents(), Scanned(p, fin.value))| <= UniqueImeiSize
    modifies store, store.data
    ensures store.Valid()
    ensures fin.None? ==> store.Contents() == old(store.Contents())
    ensures fin.Some? ==> store.Contents() == InsertAll(old(store.Contents()), Scanned(p, fin.value))
  {
    if fin.None? {
      return;
    }
    var bytes := fin.value;
    ghost var contents0 := store.Contents();
    ghost var goal := Steps(p, ScanStart, bytes);
    var imeiBuffer := new bv8[4](_ => 0);
    assert bytes[0..] == bytes && imeiBuffer[..] == [0, 0, 0, 0];
    var cnt: nat := 0;
    ghost var recorded: seq<bv64> := [];
    var i := 0;
    while i < |bytes|
      invariant 0 <= i <= |bytes| && cnt <= 6 && imeiBuffer.Length == 4
      invariant store.Valid()
      invariant Steps(p, Scan(cnt, imeiBuffer[..], recorded), bytes[i..]) == goal
      invariant store.Contents() == InsertAll(contents0, recorded)
      decreases |bytes| - i
    {
      var b := bytes[i];
      ghost var s := Scan(cnt, imeiBuffer[..], recorded);
      ghost var local := Step(p, s.(found := []), b);
      ghost var rest := bytes[i + 1..];
      SplitHead(bytes, i);
      AdvanceScan(p, s, b, rest, contents0, goal);
      cnt := ScanByte(p, b, cnt, imeiBuffer, store);
      recorded := recorded + local.found;
      i := i + 1;
      assert bytes[i..] == rest;
    }
    assert bytes[i..] == [];
  }

  /** The bytes from `i` on are the byte at `i` followed by the bytes after it. */
  lemma SplitHead(bytes: seq<bv8>, i: nat)
    requires i < |bytes|
    ensures bytes[i..] == [bytes[i]] + bytes[i + 1..]
  {
  }

  /**
   * The body of the `parser` loop for the byte `b`: the branch chain on `cnt`,
   * the write into the local capture buffer, and the insert of a completed value.
   */
  method ScanByte(p: Prefix, b: bv8, cnt: nat, imeiBuffer: array<bv8>, store: ImeiArray) returns (cnt': nat)
    requires cnt <= 6 && imeiBuffer.Length == 4 && store.Valid() && imeiBuffer as object != store.data
    requires cnt == 6 && b != p.first ==>
      store.length < UniqueImeiSize || Assemble(p, imeiBuffer[..][3 := b]) in store.Contents()
    modifies imeiBuffer, store`length, store.data
    ensures store.Valid()
    ensures var r := Step(p, Scan(cnt, old(imeiBuffer[..]), []), b);
      cnt' == r.cnt && imeiBuffer[..] == r.captured && store.Contents() == InsertAll(old(store.Contents()), r.found)
  {
    cnt' := cnt;
    if b == p.first {
      cnt' := 1;
    } else if b == p.second && cnt' == 1 {
      cnt' := cnt' + 1;
    } else if b == p.third && cnt' == 2 {
      cnt' := cnt' + 1;
    } else if cnt' == 3 || cnt' == 4 || cnt' == 5 {
      imeiBuffer[cnt' - 3] := b;
      cnt' := cnt' + 1;
    } else if cnt' == 6 {
      imeiBuffer[cnt' - 3] := b;
      var imei := ((p.first as bv64) << 48) | ((p.second as bv64) << 40) | ((p.third as bv64) << 32)
        | ((imeiBuffer[0] as bv64) << 24) | ((imeiBuffer[1] as bv64) << 16)
        | ((imeiBuffer[2] as bv64) << 8) | (imeiBuffer[3] as bv64);
      assert imei == Assemble(p, imeiBuffer[..]);
      store.Insert(imei);
      cnt' := 0;
    } else {
      cnt' := 0;
    }
  }

  /**
   * One turn of the `parser` loop on the values: the byte `b` acts on the
   * counter and the captured bytes alone, the scan of the remaining bytes
   * still ends where the whole scan does, and a value about to be inserted
   * fits in the array unless it is stored already.
   */
  lemma {:induction false} AdvanceScan(p: Prefix, s: Scan, b: bv8, rest: seq<bv8>, xs: seq<bv64>, goal: Scan)
    requires ScanWf(s) && NoDuplicates(xs)
    requires Steps(p, s, [b] + rest) == goal
    requires |InsertAll(xs, goal.found)| <= UniqueImeiSize
    ensures var l := Step(p, s.(found := []), b);
      Steps(p, Scan(l.cnt, l.captured, s.found + l.found), rest) == goal
    ensures InsertAll(xs, s.found + Step(p, s.(found := []), b).found) ==
      InsertAll(InsertAll(xs, s.found), Step(p, s.(found := []), b).found)
    ensures s.cnt == 6 && b != p.first ==>
      |InsertAll(xs, s.found)| < UniqueImeiSize || Assemble(p, s.captured[3 := b]) in InsertAll(xs, s.found)
  {
    StepShift(p, s, b);
    StepsCons(p, s, b, rest);
    InsertAllAppend(xs, s.found, Step(p, s.(found := []), b).found);
    if s.cnt == 6 && b != p.first {
      CapacityForNext(p, s, b, rest, xs);
    }
  }

  /** Inserting a one-value sequence is a single insert. */
  lemma InsertAllSingle(xs: seq<bv64>, v: bv64)
    ensures InsertAll(xs, [v]) == InsertUnique(xs, v)
  {
    assert [v][1..] == [];
  }

  /** A sequence is its first `k` elements followed by the rest. */
  lemma SplitAt(all: seq<bv64>, k: nat)
    requires k <= |all|
    ensures all == all[..k] + all[k..]
  {
  }

  /** If inserting `found`, then `v`, then `more` fits in the array, then before `v` there is room for it unless it is stored. */
  lemma CapacityFor(xs: seq<bv64>, found: seq<bv64>, v: bv64, more: seq<bv64>)
    requires NoDuplicates(xs)
    requires |InsertAll(xs, found + [v] + more)| <= UniqueImeiSize
    ensures |InsertAll(xs, found)| < UniqueImeiSize || v in InsertAll(xs, found)
  {
    var ys := InsertAll(xs, found);
    InsertAllAppend(xs, found + [v], more);
    InsertAllAppend(xs, found, [v]);
    InsertAllSingle(ys, v);
    InsertAllSpec(xs, found);
  }

  /**
   * Before the value completed by `b` is inserted, the array still has room
   * for it unless it is stored already.
   */
  lemma CapacityForNext(p: Prefix, s: Scan, b: bv8, rest: seq<bv8>, xs: seq<bv64>)
    requires ScanWf(s) && NoDuplicates(xs)
    requires b != p.first && s.cnt == 6
    requires |InsertAll(xs, Steps(p, s, [b] + rest).found)| <= UniqueImeiSize
    ensures var v := Assemble(p, s.captured[3 := b]);
      |InsertAll(xs, s.found)| < UniqueImeiSize || v in InsertAll(xs, s.found)
  {
    var v := Assemble(p, s.captured[3 := b]);
    var s1 := Step(p, s, b);
    StepSpec(p, s, b);
    assert s1.found == s.found + [v];
    StepsCons(p, s, b, rest);
    var all := Steps(p, s1, rest).found;
    assert all[..|s1.found|] == s1.found;
    SplitAt(all, |s1.found|);
    CapacityFor(xs, s.found, v, all[|s1.found|..]);
  }
}
