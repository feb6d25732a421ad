/** The argument block of noli/src/args.rs: total size, number of arguments, a table of offsets and
    lengths, and the null-terminated arguments themselves. */
module Args {
  import opened Common
  import opened LittleEndian

  type Arg = seq<byte>

  //
  // The format
  //

  function BaseOfs(args: seq<Arg>): nat { (|args| + 1) * 16 }

  function Data(args: seq<Arg>): seq<byte> {
    if args == [] then [] else Data(args[..|args| - 1]) + args[|args| - 1] + [0]
  }

  function Ofs(args: seq<Arg>, i: nat): nat
    requires i <= |args|
  {
    BaseOfs(args) + |Data(args[..i])|
  }

  function TotalSize(args: seq<Arg>): nat { BaseOfs(args) + |Data(args)| }

  /** The first `n` entries of the table. */
  function Table(args: seq<Arg>, n: nat): (t: seq<byte>)
    requires n <= |args| && TotalSize(args) < U64
    ensures |t| == 16 * n
  {
    if n == 0 then [] else
      EntryFits(args, n - 1);
      Table(args, n - 1) + Le64(Ofs(args, n - 1)) + Le64(|args[n - 1]|)
  }

  function Serialize(args: seq<Arg>): seq<byte>
    requires TotalSize(args) < U64
  {
    Le64(TotalSize(args)) + Le64(|args|) + Table(args, |args|) + Data(args)
  }

  /** Whether the bytes of an argument are UTF-8 is left to `utf8`. */
  type Utf8 = seq<byte> -> bool

  /** The arguments from number `i` on; an index out of range, where the code panics, is `Err` too. */
  function DeserializeFrom(b: seq<byte>, utf8: Utf8, num: nat, i: nat): Result<seq<Arg>>
    requires 16 * (num + 1) <= |b| && i <= num
    decreases num - i
  {
    if i == num then Ok([]) else
      var ofs, len := FromLe64(b, 16 + i * 16), FromLe64(b, 16 + i * 16 + 8);
      if ofs + len > |b| || !utf8(b[ofs..ofs + len]) then Err else
        match DeserializeFrom(b, utf8, num, i + 1)
        case Err => Err
        case Ok(rest) => Ok([b[ofs..ofs + len]] + rest)
  }

  function Deserialize(b: seq<byte>, utf8: Utf8): Result<seq<Arg>> {
    if |b| < 16 then Err else
      var num := FromLe64(b, 8);
      if (num + 1) * 16 > |b| then Err else DeserializeFrom(b, utf8, num, 0)
  }

  //
  // Where things are
  //

  lemma {:induction false} DataPrefix(args: seq<Arg>, i: nat)
    requires i < |args|
    ensures |Data(args[..i])| + |args[i]| + 1 <= |Data(args)|
    ensures Data(args)[..|Data(args[..i])| + |args[i]| + 1] == Data(args[..i]) + args[i] + [0]
    decreases |args|
  {
    var front := args[..|args| - 1];
    if i < |args| - 1 {
      DataPrefix(front, i);
      assert front[..i] == args[..i] && front[i] == args[i];
    }
  }

  lemma EntryFits(args: seq<Arg>, i: nat)
    requires i < |args| && TotalSize(args) < U64
    ensures Ofs(args, i) + |args[i]| + 1 <= TotalSize(args)
  {
    DataPrefix(args, i);
  }

  lemma {:induction false} TableEntry(args: seq<Arg>, n: nat, i: nat)
    requires i < n <= |args| && TotalSize(args) < U64
    ensures Ofs(args, i) < U64 && |args[i]| < U64
    ensures Table(args, n)[16 * i..16 * i + 16] == Le64(Ofs(args, i)) + Le64(|args[i]|)
    decreases n
  {
    EntryFits(args, i);
    EntryFits(args, n - 1);
    var t, ofs, len := Table(args, n - 1), Le64(Ofs(args, n - 1)), Le64(|args[n - 1]|);
    if i < n - 1 {
      TableEntry(args, n - 1, i);
    }
    SliceOfAppend(t, ofs, len, 16 * i);
  }

  lemma SliceOfAppend(t: seq<byte>, a: seq<byte>, b: seq<byte>, at: nat)
    requires |a| == 8 && |b| == 8
    ensures at + 16 <= |t| ==> (t + a + b)[at..at + 16] == t[at..at + 16]
    ensures at == |t| ==> (t + a + b)[at..at + 16] == a + b
  {
  }

  /** The stored total size is the length of the block, the stored count the number of arguments. */
  lemma Sizes(args: seq<Arg>, extra: seq<byte>)
    requires TotalSize(args) < U64
    ensures var b := Serialize(args) + extra;
            |b| == TotalSize(args) + |extra| && FromLe64(b, 0) == TotalSize(args) && FromLe64(b, 8) == |args|
  {
    var b := Serialize(args) + extra;
    assert b[0..8] == Le64(TotalSize(args)) && b[8..16] == Le64(|args|);
    WordReads(b, 0, TotalSize(args));
    WordReads(b, 8, |args|);
  }

  /** Entry `i` of the table gives the place of argument `i`, which stands there null-terminated. */
  lemma ArgumentAt(args: seq<Arg>, extra: seq<byte>, i: nat)
    requires TotalSize(args) < U64 && i < |args|
    ensures var b := Serialize(args) + extra;
            && |b| >= 16 + i * 16 + 16 && |b| > Ofs(args, i) + |args[i]|
            && FromLe64(b, 16 + i * 16) == Ofs(args, i)
            && FromLe64(b, 16 + i * 16 + 8) == |args[i]|
            && b[Ofs(args, i)..Ofs(args, i) + |args[i]|] == args[i]
            && b[Ofs(args, i) + |args[i]|] == 0
  {
    EntryFits(args, i);
    TableAt(args, extra, i);
    DataAt(args, extra, i);
  }

  lemma TableAt(args: seq<Arg>, extra: seq<byte>, i: nat)
    requires TotalSize(args) < U64 && i < |args|
    ensures var b := Serialize(args) + extra;
            && |b| >= 16 + i * 16 + 16
            && FromLe64(b, 16 + i * 16) == Ofs(args, i)
            && FromLe64(b, 16 + i * 16 + 8) == |args[i]|
  {
    var b, t := Serialize(args) + extra, Table(args, |args|);
    var head := Le64(TotalSize(args)) + Le64(|args|);
    TableEntry(args, |args|, i);
    InBlock(head, t, Data(args) + extra, 16 * i);
    assert b == head + t + (Data(args) + extra);
    TwoWords(b, 16 + i * 16, Ofs(args, i), |args[i]|);
  }

  lemma TwoWords(b: seq<byte>, at: nat, x: nat, y: nat)
    requires x < U64 && y < U64 && at + 16 <= |b| && b[at..at + 16] == Le64(x) + Le64(y)
    ensures FromLe64(b, at) == x && FromLe64(b, at + 8) == y
  {
    assert b[at..at + 8] == b[at..at + 16][..8] == Le64(x);
    assert b[at + 8..at + 16] == b[at..at + 16][8..] == Le64(y);
    WordReads(b, at, x);
    WordReads(b, at + 8, y);
  }

  lemma InBlock(head: seq<byte>, t: seq<byte>, rest: seq<byte>, at: nat)
    requires |head| == 16 && at + 16 <= |t|
    ensures (head + t + rest)[16 + at..16 + at + 16] == t[at..at + 16]
  {
  }

  lemma DataAt(args: seq<Arg>, extra: seq<byte>, i: nat)
    requires TotalSize(args) < U64 && i < |args|
    ensures var b := Serialize(args) + extra;
            && |b| > Ofs(args, i) + |args[i]|
            && b[Ofs(args, i)..Ofs(args, i) + |args[i]|] == args[i]
            && b[Ofs(args, i) + |args[i]|] == 0
  {
    DataPrefix(args, i);
    var pre := Le64(TotalSize(args)) + Le64(|args|) + Table(args, |args|);
    assert |pre| == BaseOfs(args);
    ArgInData(pre, Data(args), extra, Data(args[..i]), args[i]);
  }

  lemma ArgInData(pre: seq<byte>, d: seq<byte>, extra: seq<byte>, front: seq<byte>, arg: Arg)
    requires |front| + |arg| + 1 <= |d| && d[..|front| + |arg| + 1] == front + arg + [0]
    ensures var b, at := pre + d + extra, |pre| + |front|;
            && at + |arg| < |b| && b[at..at + |arg|] == arg && b[at + |arg|] == 0
  {
    var b, at, p := pre + d + extra, |pre| + |front|, front + arg + [0];
    assert d[|front| + |arg|] == p[|front| + |arg|];
    forall k | 0 <= k < |arg| ensures b[at..at + |arg|][k] == arg[k] {
      assert d[|front| + k] == d[..|front| + |arg| + 1][|front| + k] == p[|front| + k];
    }
  }

  //
  // Round trip
  //

  /** The table of `b` leads to argument `i`. */
  ghost predicate Placed(b: seq<byte>, arg: Arg, i: nat) {
    && |b| >= 16 + i * 16 + 16
    && var ofs, len := FromLe64(b, 16 + i * 16), FromLe64(b, 16 + i * 16 + 8);
    ofs + len <= |b| && b[ofs..ofs + len] == arg
  }

  lemma {:induction false} DeserializeTail(b: seq<byte>, args: seq<Arg>, utf8: Utf8, i: nat)
    requires 16 * (|args| + 1) <= |b| && i <= |args|
    requires forall k :: 0 <= k < |args| ==> utf8(args[k]) && Placed(b, args[k], k)
    ensures DeserializeFrom(b, utf8, |args|, i) == Ok(args[i..])
    decreases |args| - i
  {
    if i < |args| {
      assert Placed(b, args[i], i);
      DeserializeTail(b, args, utf8, i + 1);
      assert args[i..] == [args[i]] + args[i + 1..];
    } else {
      assert args[i..] == [];
    }
  }

  /** Reading back a block, whatever follows it in memory, gives the arguments. */
  lemma DeserializeInvertsSerialize(args: seq<Arg>, extra: seq<byte>, utf8: Utf8)
    requires TotalSize(args) < U64 && forall k :: 0 <= k < |args| ==> utf8(args[k])
    ensures Deserialize(Serialize(args) + extra, utf8) == Ok(args)
  {
    var b := Serialize(args) + extra;
    Sizes(args, extra);
    forall k | 0 <= k < |args| ensures Placed(b, args[k], k) {
      ArgumentAt(args, extra, k);
    }
    DeserializeTail(b, args, utf8, 0);
    assert args[0..] == args;
  }

  //
  // The loops
  //

  /** Entry `i` of the table names bytes of `b` that are valid text. */
  ghost predicate EntryOk(b: seq<byte>, utf8: Utf8, i: nat)
    requires 16 + i * 16 + 16 <= |b|
  {
    var ofs, len := FromLe64(b, 16 + i * 16), FromLe64(b, 16 + i * 16 + 8);
    ofs + len <= |b| && utf8(b[ofs..ofs + len])
  }

  ghost predicate EntriesOk(b: seq<byte>, utf8: Utf8, num: nat, i: nat)
    requires 16 * (num + 1) <= |b|
  {
    forall k :: i <= k < num ==> EntryOk(b, utf8, k)
  }

  /** The arguments come from the entries of the table from number `i` on. */
  ghost predicate AllPlaced(b: seq<byte>, args: seq<Arg>, i: nat) {
    forall k :: 0 <= k < |args| ==> Placed(b, args[k], i + k)
  }

  lemma AllPlacedNext(b: seq<byte>, arg: Arg, rest: seq<Arg>, i: nat)
    requires Placed(b, arg, i) && AllPlaced(b, rest, i + 1)
    ensures AllPlaced(b, [arg] + rest, i)
  {
    var args := [arg] + rest;
    forall k | 0 <= k < |args| ensures Placed(b, args[k], i + k) {
      if k > 0 {
        assert args[k] == rest[k - 1] && Placed(b, rest[k - 1], i + 1 + (k - 1));
      }
    }
  }

  lemma {:induction false} DeserializeFromExactly(b: seq<byte>, utf8: Utf8, num: nat, i: nat)
    requires 16 * (num + 1) <= |b| && i <= num
    ensures DeserializeFrom(b, utf8, num, i).Ok? <==> EntriesOk(b, utf8, num, i)
    ensures DeserializeFrom(b, utf8, num, i).Ok? ==>
              var args := DeserializeFrom(b, utf8, num, i).value;
              |args| == num - i && AllPlaced(b, args, i)
    decreases num - i
  {
    if i < num {
      DeserializeFromExactly(b, utf8, num, i + 1);
      EntriesFrom(b, utf8, num, i);
      DeserializeNext(b, utf8, num, i);
      if EntriesOk(b, utf8, num, i) {
        var ofs, len := FromLe64(b, 16 + i * 16), FromLe64(b, 16 + i * 16 + 8);
        AllPlacedNext(b, b[ofs..ofs + len], DeserializeFrom(b, utf8, num, i + 1).value, i);
      }
    }
  }

  lemma EntriesFrom(b: seq<byte>, utf8: Utf8, num: nat, i: nat)
    requires 16 * (num + 1) <= |b| && i < num
    ensures EntriesOk(b, utf8, num, i) <==> EntryOk(b, utf8, i) && EntriesOk(b, utf8, num, i + 1)
  {
  }

  /** On any bytes: decoding succeeds exactly if header and table are there and every entry names valid
      text inside the block, and then gives as many arguments as the header says, each from its
      entry. */
  lemma DeserializeExactly(b: seq<byte>, utf8: Utf8)
    ensures Deserialize(b, utf8).Ok? <==>
            |b| >= 16 && 16 * (FromLe64(b, 8) + 1) <= |b| && EntriesOk(b, utf8, FromLe64(b, 8), 0)
    ensures Deserialize(b, utf8).Ok? ==>
              var args := Deserialize(b, utf8).value;
              |args| == FromLe64(b, 8) && AllPlaced(b, args, 0)
  {
    if |b| >= 16 && 16 * (FromLe64(b, 8) + 1) <= |b| {
      DeserializeFromExactly(b, utf8, FromLe64(b, 8), 0);
    }
  }

  lemma DataSnoc(args: seq<Arg>, i: nat)
    requires i < |args|
    ensures Data(args[..i + 1]) == Data(args[..i]) + args[i] + [0]
  {
    assert args[..i + 1][..i] == args[..i];
  }

  /** Lays the arguments out one after the other, noting where each one goes. */
  method LayOut(args: seq<Arg>) returns (entries: seq<(nat, nat)>, data: seq<byte>)
    ensures data == Data(args) && |entries| == |args|
    ensures forall k :: 0 <= k < |args| ==> entries[k] == (Ofs(args, k), |args[k]|)
  {
    var base := (|args| + 1) * 16;
    entries, data := [], [];
    for i := 0 to |args|
      invariant |entries| == i && data == Data(args[..i])
      invariant forall k :: 0 <= k < i ==> entries[k] == (Ofs(args, k), |args[k]|)
    {
      DataSnoc(args, i);
      entries := entries + [(base + |data|, |args[i]|)];
      data := data + args[i] + [0];
    }
    assert args[..|args|] == args;
  }

  method SerializeArgs(args: seq<Arg>) returns (serialized: seq<byte>)
    requires TotalSize(args) < U64
    ensures serialized == Serialize(args)
  {
    var entries, data := LayOut(args);
    serialized := Le64((|args| + 1) * 16 + |data|) + Le64(|args|);
    ghost var head := serialized;
    for i := 0 to |entries|
      invariant serialized == head + Table(args, i)
    {
      EntryFits(args, i);
      ghost var t, ofs, len := Table(args, i), Le64(Ofs(args, i)), Le64(|args[i]|);
      serialized := serialized + Le64(entries[i].0) + Le64(entries[i].1);
      assert head + t + ofs + len == head + (t + ofs + len);
    }
    serialized := serialized + data;
  }

  function Prepend(args: seq<Arg>, r: Result<seq<Arg>>): Result<seq<Arg>> {
    match r
    case Err => Err
    case Ok(rest) => Ok(args + rest)
  }

  lemma PrependLaws(args: seq<Arg>, s: Arg, r: Result<seq<Arg>>)
    ensures Prepend([], r) == r
    ensures Prepend(args, Prepend([s], r)) == Prepend(args + [s], r)
  {
    if r.Ok? {
      assert args + ([s] + r.value) == args + [s] + r.value;
      assert [] + r.value == r.value;
    }
  }

  lemma DeserializeNext(b: seq<byte>, utf8: Utf8, num: nat, i: nat)
    requires 16 * (num + 1) <= |b| && i < num
    ensures var ofs, len := FromLe64(b, 16 + i * 16), FromLe64(b, 16 + i * 16 + 8);
            DeserializeFrom(b, utf8, num, i) ==
            if ofs + len > |b| || !utf8(b[ofs..ofs + len]) then Err
            else Prepend([b[ofs..ofs + len]], DeserializeFrom(b, utf8, num, i + 1))
  {
  }

  method DeserializeArgs(b: seq<byte>, utf8: Utf8) returns (r: Result<seq<Arg>>)
    ensures r == Deserialize(b, utf8)
  {
    if |b| < 16 {
      return Err;
    }
    var num := FromLe64(b, 8);
    if (num + 1) * 16 > |b| {
      return Err;
    }
    var args: seq<Arg> := [];
    PrependLaws([], [], Deserialize(b, utf8));
    var i := 0;
    while i < num
      invariant 0 <= i <= num
      invariant Deserialize(b, utf8) == Prepend(args, DeserializeFrom(b, utf8, num, i))
    {
      DeserializeNext(b, utf8, num, i);
      var ofs := FromLe64(b, 16 + i * 16);
      var len := FromLe64(b, 16 + i * 16 + 8);
      if ofs + len > |b| {
        return Err;
      }
      var s := b[ofs..ofs + len];
      if !utf8(s) {
        return Err;
      }
      PrependLaws(args, s, DeserializeFrom(b, utf8, num, i + 1));
      args := args + [s];
      i := i + 1;
    }
    assert args + [] == args;
    r := Ok(args);
  }
}
