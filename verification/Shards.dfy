/** Splitting files into encrypted shards and putting them back together, and the chunk manifest. */
module Shards {
  import opened Common

  const CHUNK_SIZE: nat := 256 * 1024

  datatype Shard = Shard(index: nat, totalShards: nat, fileId: string, ciphertext: Ciphertext<nat>, nonce: nat)

  // --- Chunks ----------------------------------------------------------------------------------

  /** Consecutive pieces of `size` bytes, the last one possibly shorter; none for empty data. */
  function Chunks(data: Bytes, size: nat): seq<Bytes>
    requires size > 0
    decreases |data|
  {
    if |data| == 0 then []
    else if |data| <= size then [data]
    else [data[..size]] + Chunks(data[size..], size)
  }

  function Concat(pieces: seq<Bytes>): Bytes {
    if |pieces| == 0 then [] else pieces[0] + Concat(pieces[1..])
  }

  function TotalSize(pieces: seq<Bytes>): nat {
    if |pieces| == 0 then 0 else |pieces[0]| + TotalSize(pieces[1..])
  }

  /** Chunks join to the data; all but the last are full and the last is neither empty nor oversized. */
  lemma {:induction false} ChunksCover(data: Bytes, size: nat)
    requires size > 0
    ensures var c := Chunks(data, size);
      && Concat(c) == data
      && TotalSize(c) == |data|
      && (forall i :: 0 <= i < |c| - 1 ==> |c[i]| == size)
      && (|c| > 0 ==> 0 < |c[|c| - 1]| <= size)
      && (|c| == 0 <==> |data| == 0)
    decreases |data|
  {
    if |data| > size {
      ChunksCover(data[size..], size);
      var c, rest := Chunks(data, size), Chunks(data[size..], size);
      assert c[1..] == rest;
      assert data == data[..size] + data[size..];
    } else if |data| > 0 {
      assert Chunks(data, size)[1..] == [];
      assert data + [] == data;
    }
  }

  /** Piece `i` of `size` bytes, the last one perhaps shorter. */
  function Piece(data: Bytes, size: nat, i: nat): Bytes
    requires i * size < |data|
  {
    data[i * size..if i * size + size < |data| then i * size + size else |data|]
  }

  lemma PieceOfRest(data: Bytes, size: nat, i: nat)
    requires 0 < size < |data| && i > 0 && (i - 1) * size < |data| - size
    ensures i * size < |data| && Piece(data, size, i) == Piece(data[size..], size, i - 1)
  {
    assert i * size == (i - 1) * size + size;
  }

  /** Where each chunk lies in the data. */
  lemma {:induction false} ChunkAt(data: Bytes, size: nat, i: nat)
    requires size > 0 && i < |Chunks(data, size)|
    ensures i * size < |data| && Chunks(data, size)[i] == Piece(data, size, i)
    decreases |data|
  {
    hide Piece;
    if i > 0 {
      ChunkAt(data[size..], size, i - 1);
      PieceOfRest(data, size, i);
    } else {
      FirstPiece(data, size);
    }
  }

  lemma FirstPiece(data: Bytes, size: nat)
    requires size > 0 && |data| > 0
    ensures 0 * size < |data| && Piece(data, size, 0) == if |data| <= size then data else data[..size]
  {
  }

  // --- Sharding --------------------------------------------------------------------------------

  function ShardOf(fileId: string, chunks: seq<Bytes>, key: nat, nonces: seq<nat>, i: nat): Shard
    requires i < |chunks| && i < |nonces|
  {
    Shard(i % 0x1_0000_0000, |chunks| % 0x1_0000_0000, fileId, Sealed(key, nonces[i], chunks[i]), nonces[i])
  }

  function SplitAndEncrypt(fileId: string, data: Bytes, key: nat, nonces: seq<nat>): (r: seq<Shard>)
    requires |nonces| == |Chunks(data, CHUNK_SIZE)|
    ensures |r| == |Chunks(data, CHUNK_SIZE)|
    ensures |r| < 0x1_0000_0000 ==> forall i :: 0 <= i < |r| ==>
      r[i].index == i && r[i].totalShards == |r| && r[i].fileId == fileId
  {
    var chunks := Chunks(data, CHUNK_SIZE);
    seq(|chunks|, i requires 0 <= i < |chunks| => ShardOf(fileId, chunks, key, nonces, i))
  }

  /** Shard `i` seals the 262144 bytes from 262144 * i on, or what there is of them, under its own nonce. */
  lemma ShardSeals(fileId: string, data: Bytes, key: nat, nonces: seq<nat>, i: nat)
    requires |nonces| == |Chunks(data, CHUNK_SIZE)| && i < |nonces|
    ensures var s := SplitAndEncrypt(fileId, data, key, nonces)[i];
      var end := if 262_144 * i + 262_144 < |data| then 262_144 * i + 262_144 else |data|;
      && 262_144 * i < |data|
      && s.nonce == nonces[i] && s.ciphertext == Sealed(key, nonces[i], data[262_144 * i..end])
      && s.fileId == fileId && s.index == i % 0x1_0000_0000 && s.totalShards == |nonces| % 0x1_0000_0000
  {
    hide Chunks;
    ChunkAt(data, CHUNK_SIZE, i);
  }

  /** One insertion of a stable sort by index. */
  function Insert(s: Shard, sorted: seq<Shard>): seq<Shard> {
    if |sorted| == 0 || s.index <= sorted[0].index then [s] + sorted
    else [sorted[0]] + Insert(s, sorted[1..])
  }

  /** `sort_by_key` on the index. */
  function SortByIndex(shards: seq<Shard>): seq<Shard> {
    if |shards| == 0 then [] else Insert(shards[0], SortByIndex(shards[1..]))
  }

  /** The texts of the shards in order, or a failure at the first one that does not open. */
  function Assembled(shards: seq<Shard>, key: nat): Result<Bytes> {
    if |shards| == 0 then Ok([])
    else
      var first := Open(key, shards[0].nonce, shards[0].ciphertext);
      if first.Err? then Err("Decryption failed on a shard")
      else
        var rest := Assembled(shards[1..], key);
        if rest.Err? then rest else Ok(first.value + rest.value)
  }

  lemma {:induction false} AssembledAppend(a: seq<Shard>, b: seq<Shard>, key: nat)
    ensures Assembled(a, key).Err? ==> Assembled(a + b, key) == Assembled(a, key)
    ensures Assembled(a, key).Ok? && Assembled(b, key).Err? ==> Assembled(a + b, key) == Assembled(b, key)
    ensures Assembled(a, key).Ok? && Assembled(b, key).Ok? ==>
      Assembled(a + b, key) == Ok(Assembled(a, key).value + Assembled(b, key).value)
  {
    if |a| == 0 {
      assert a + b == b;
      if Assembled(b, key).Ok? {
        assert [] + Assembled(b, key).value == Assembled(b, key).value;
      }
    } else {
      assert (a + b)[0] == a[0] && (a + b)[1..] == a[1..] + b;
      AssembledAppend(a[1..], b, key);
      if Assembled(a, key).Ok? && Assembled(b, key).Ok? {
        ConcatAssociative(a[0].ciphertext.text, Assembled(a[1..], key).value, Assembled(b, key).value);
      }
    }
  }

  lemma ConcatAssociative(a: Bytes, b: Bytes, c: Bytes)
    ensures (a + b) + c == a + (b + c)
  {
  }

  /** One turn of the assembly loop. */
  lemma AssembledNext(shards: seq<Shard>, key: nat, i: nat)
    requires i < |shards| && Assembled(shards[..i], key).Ok?
    ensures var plain := Open(key, shards[i].nonce, shards[i].ciphertext);
      if plain.Err? then Assembled(shards, key) == Err("Decryption failed on a shard")
      else Assembled(shards[..i + 1], key) == Ok(Assembled(shards[..i], key).value + plain.value)
  {
    var plain, one := Open(key, shards[i].nonce, shards[i].ciphertext), [shards[i]];
    assert one[0] == shards[i] && one[1..] == [];
    assert Assembled(one, key) == if plain.Err? then Err("Decryption failed on a shard") else Ok(plain.value + []);
    assert plain.Ok? ==> plain.value + [] == plain.value;
    assert shards[..i + 1] == shards[..i] + one;
    AssembledAppend(shards[..i], one, key);
    assert shards == shards[..i + 1] + shards[i + 1..];
    AssembledAppend(shards[..i + 1], shards[i + 1..], key);
  }

  method DecryptAndAssemble(shards: array<Shard>, key: nat) returns (r: Result<Bytes>)
    modifies shards
    ensures shards[..] == SortByIndex(old(shards[..]))
    ensures r == Assembled(SortByIndex(old(shards[..])), key)
  {
    hide SortByIndex, Assembled, Open;
    var sorted := SortByIndex(shards[..]);
    SortPermutes(shards[..]);
    forall i | 0 <= i < shards.Length {
      shards[i] := sorted[i];
    }
    assert shards[..] == sorted;
    var output: Bytes := [];
    AssembledNone(key);
    for i := 0 to shards.Length
      invariant shards[..] == sorted
      invariant Assembled(sorted[..i], key) == Ok(output)
    {
      AssembledNext(sorted, key, i);
      var plain := Open(key, shards[i].nonce, shards[i].ciphertext);
      if plain.Err? {
        return Err("Decryption failed on a shard");
      }
      output := output + plain.value;
    }
    assert sorted[..|sorted|] == sorted;
    r := Ok(output);
  }

  lemma AssembledNone(key: nat)
    ensures Assembled([], key) == Ok([])
  {
  }

  // --- Sorting ---------------------------------------------------------------------------------

  ghost predicate Ordered(s: seq<Shard>) {
    forall i, j :: 0 <= i < j < |s| ==> s[i].index <= s[j].index
  }

  lemma {:induction false} InsertPermutes(x: Shard, s: seq<Shard>)
    ensures multiset(Insert(x, s)) == multiset(s) + multiset{x}
  {
    if |s| > 0 && x.index > s[0].index {
      InsertPermutes(x, s[1..]);
      assert s == [s[0]] + s[1..];
    }
  }

  lemma {:induction false} InsertOrdered(x: Shard, s: seq<Shard>)
    requires Ordered(s)
    ensures Ordered(Insert(x, s))
  {
    if |s| > 0 && x.index > s[0].index {
      InsertOrdered(x, s[1..]);
      InsertPermutes(x, s[1..]);
      var r := Insert(x, s[1..]);
      forall i | 0 <= i < |r|
        ensures s[0].index <= r[i].index
      {
        assert r[i] in multiset(r);
        assert r[i] == x || r[i] in s[1..];
      }
    }
  }

  lemma {:induction false} SortPermutes(s: seq<Shard>)
    ensures Ordered(SortByIndex(s)) && multiset(SortByIndex(s)) == multiset(s)
    ensures |SortByIndex(s)| == |s|
  {
    if |s| > 0 {
      SortPermutes(s[1..]);
      InsertOrdered(s[0], SortByIndex(s[1..]));
      InsertPermutes(s[0], SortByIndex(s[1..]));
      assert s == [s[0]] + s[1..];
    }
    assert |multiset(s)| == |s| && |multiset(SortByIndex(s))| == |SortByIndex(s)|;
  }

  /** The shards of one index, in their order. */
  function WithIndex(s: seq<Shard>, index: nat): seq<Shard> {
    if |s| == 0 then []
    else if s[0].index == index then [s[0]] + WithIndex(s[1..], index)
    else WithIndex(s[1..], index)
  }

  lemma {:induction false} InsertStable(x: Shard, s: seq<Shard>, index: nat)
    requires Ordered(s)
    ensures WithIndex(Insert(x, s), index) ==
      if x.index == index then [x] + WithIndex(s, index) else WithIndex(s, index)
  {
    if |s| > 0 && x.index > s[0].index {
      InsertStable(x, s[1..], index);
      if x.index == index {
        assert s[0].index != index;
      }
      assert Insert(x, s)[1..] == Insert(x, s[1..]);
    } else {
      assert Insert(x, s)[1..] == s;
    }
  }

  /** The sort is stable: shards that share an index keep their order. */
  lemma {:induction false} SortStable(s: seq<Shard>, index: nat)
    ensures WithIndex(SortByIndex(s), index) == WithIndex(s, index)
  {
    if |s| > 0 {
      SortStable(s[1..], index);
      SortPermutes(s[1..]);
      InsertStable(s[0], SortByIndex(s[1..]), index);
    }
  }

  ghost predicate StrictlyOrdered(s: seq<Shard>) {
    forall i, j :: 0 <= i < j < |s| ==> s[i].index < s[j].index
  }

  /** Shards with one index are one shard. */
  ghost predicate IndexIdentifies(s: seq<Shard>) {
    forall i, j :: 0 <= i < j < |s| && s[i].index == s[j].index ==> s[i] == s[j]
  }

  lemma StrictlyOrderedIdentifies(s: seq<Shard>)
    requires StrictlyOrdered(s)
    ensures Ordered(s) && IndexIdentifies(s)
  {
  }

  lemma FirstOfPermutation(a: seq<Shard>, b: seq<Shard>)
    requires Ordered(a) && Ordered(b) && IndexIdentifies(b) && multiset(a) == multiset(b) && |a| > 0 && |b| > 0
    ensures a[0] == b[0]
  {
    assert a[0] in multiset(b) && b[0] in multiset(a);
    var i :| 0 <= i < |b| && b[i] == a[0];
    var j :| 0 <= j < |a| && a[j] == b[0];
    assert a[0].index <= a[j].index;
  }

  /** Where an index identifies its shard, there is only one ordered permutation. */
  lemma {:induction false} OrderedPermutationUnique(a: seq<Shard>, b: seq<Shard>)
    requires Ordered(a) && Ordered(b) && IndexIdentifies(b) && multiset(a) == multiset(b)
    ensures a == b
  {
    assert |a| == |multiset(a)| == |multiset(b)| == |b|;
    if |a| > 0 {
      FirstOfPermutation(a, b);
      WithoutFirst(a);
      WithoutFirst(b);
      assert Ordered(a[1..]) && Ordered(b[1..]) && IndexIdentifies(b[1..]);
      OrderedPermutationUnique(a[1..], b[1..]);
    }
  }

  lemma WithoutFirst(s: seq<Shard>)
    requires |s| > 0
    ensures s == [s[0]] + s[1..] && multiset(s[1..]) == multiset(s) - multiset{s[0]}
  {
    assert s == [s[0]] + s[1..];
  }

  // --- Foreign shards ----------------------------------------------------------------------------

  lemma {:induction false} AssembledIff(shards: seq<Shard>, key: nat)
    ensures Assembled(shards, key).Ok? <==>
      forall s :: s in shards ==> s.ciphertext.key == key && s.ciphertext.nonce == s.nonce
    ensures Assembled(shards, key).Err? ==> Assembled(shards, key).error == "Decryption failed on a shard"
  {
    if |shards| > 0 {
      AssembledIff(shards[1..], key);
      assert shards == [shards[0]] + shards[1..];
    }
  }

  /** Any shards whatever assemble exactly when each of them was sealed with the key and the nonce it carries. */
  lemma AssemblesIffAllOpen(arrived: seq<Shard>, key: nat)
    ensures var r := Assembled(SortByIndex(arrived), key);
      && (r.Ok? <==> forall s :: s in arrived ==> s.ciphertext.key == key && s.ciphertext.nonce == s.nonce)
      && (r.Err? ==> r.error == "Decryption failed on a shard")
  {
    hide SortByIndex, Assembled;
    SortPermutes(arrived);
    AssembledIff(SortByIndex(arrived), key);
    var sorted := SortByIndex(arrived);
    forall s
      ensures s in sorted <==> s in arrived
    {
      assert s in multiset(sorted) <==> s in multiset(arrived);
    }
  }

  // --- Round trip ------------------------------------------------------------------------------

  lemma {:induction false} AssembledChunks(shards: seq<Shard>, chunks: seq<Bytes>, key: nat)
    requires |shards| == |chunks|
    requires forall i :: 0 <= i < |shards| ==>
      shards[i].ciphertext == Sealed(key, shards[i].nonce, chunks[i])
    ensures Assembled(shards, key) == Ok(Concat(chunks))
  {
    if |shards| > 0 {
      AssembledChunks(shards[1..], chunks[1..], key);
    }
  }

  /** Whatever order the shards arrive in, sorting and assembling them gives the data back. */
  lemma AnyOrderAssembles(fileId: string, data: Bytes, key: nat, nonces: seq<nat>, arrived: seq<Shard>)
    requires |nonces| == |Chunks(data, CHUNK_SIZE)| <= 0x1_0000_0000
    requires multiset(arrived) == multiset(SplitAndEncrypt(fileId, data, key, nonces))
    ensures Assembled(SortByIndex(arrived), key) == Ok(data)
  {
    hide SortByIndex, Assembled, Chunks, SplitAndEncrypt, Ordered, StrictlyOrdered, IndexIdentifies;
    var shards := SplitAndEncrypt(fileId, data, key, nonces);
    SortPermutes(arrived);
    SplitOrdered(fileId, data, key, nonces);
    StrictlyOrderedIdentifies(shards);
    OrderedPermutationUnique(SortByIndex(arrived), shards);
    WholeAssembles(fileId, data, key, nonces);
  }

  function TextTotal(shards: seq<Shard>): nat {
    if |shards| == 0 then 0 else |shards[0].ciphertext.text| + TextTotal(shards[1..])
  }

  lemma {:induction false} TextTotalWithout(s: seq<Shard>, i: nat)
    requires i < |s|
    ensures TextTotal(s) == |s[i].ciphertext.text| + TextTotal(s[..i] + s[i + 1..])
  {
    if i == 0 {
      assert s[..0] + s[1..] == s[1..];
    } else {
      TextTotalWithout(s[1..], i - 1);
      assert (s[..i] + s[i + 1..])[1..] == s[1..][..i - 1] + s[1..][i..];
    }
  }

  /** A part of the shards carries less text than the whole, unless it is the whole. */
  lemma {:induction false} PartCarriesLess(part: seq<Shard>, whole: seq<Shard>)
    requires multiset(part) <= multiset(whole)
    requires forall s :: s in whole ==> |s.ciphertext.text| > 0
    ensures TextTotal(part) <= TextTotal(whole)
    ensures TextTotal(part) == TextTotal(whole) <==> multiset(part) == multiset(whole)
  {
    if |part| == 0 {
      if |whole| > 0 {
        assert whole[0] in whole && whole[0] in multiset(whole);
      }
    } else {
      assert part[0] in multiset(whole);
      var i :| 0 <= i < |whole| && whole[i] == part[0];
      var rest := whole[..i] + whole[i + 1..];
      RemoveCommon(part, whole, i);
      TextTotalWithout(whole, i);
      PartCarriesLess(part[1..], rest);
    }
  }

  lemma RemoveCommon(part: seq<Shard>, whole: seq<Shard>, i: nat)
    requires |part| > 0 && i < |whole| && whole[i] == part[0] && multiset(part) <= multiset(whole)
    ensures var rest := whole[..i] + whole[i + 1..];
      && multiset(part[1..]) <= multiset(rest)
      && (multiset(part[1..]) == multiset(rest) <==> multiset(part) == multiset(whole))
      && (forall s :: s in rest ==> s in whole)
  {
    var rest := whole[..i] + whole[i + 1..];
    assert part == [part[0]] + part[1..];
    assert whole == whole[..i] + [whole[i]] + whole[i + 1..];
    assert multiset(whole) == multiset(rest) + multiset{part[0]};
    assert multiset(part) == multiset(part[1..]) + multiset{part[0]};
    CancelOne(multiset(part[1..]), multiset(rest), part[0]);
  }

  lemma CancelOne<T>(a: multiset<T>, b: multiset<T>, x: T)
    ensures a + multiset{x} <= b + multiset{x} ==> a <= b
    ensures a + multiset{x} == b + multiset{x} ==> a == b
  {
    assert (a + multiset{x}) - multiset{x} == a;
    assert (b + multiset{x}) - multiset{x} == b;
    if a + multiset{x} <= b + multiset{x} {
      forall y
        ensures a[y] <= b[y]
      {
        assert (a + multiset{x})[y] <= (b + multiset{x})[y];
      }
    }
  }

  lemma {:induction false} AssembledSize(shards: seq<Shard>, key: nat)
    requires forall i :: 0 <= i < |shards| ==>
      shards[i].ciphertext.key == key && shards[i].ciphertext.nonce == shards[i].nonce
    ensures Assembled(shards, key).Ok? && |Assembled(shards, key).value| == TextTotal(shards)
  {
    if |shards| > 0 {
      AssembledSize(shards[1..], key);
    }
  }

  // --- Lost and repeated shards --------------------------------------------------------------------

  function Times(text: Bytes, n: nat): Bytes {
    if n == 0 then [] else text + Times(text, n - 1)
  }

  /** The chunks in order, each as often as its shard arrived. */
  function WithRepeats(shards: seq<Shard>, arrived: multiset<Shard>): Bytes {
    if |shards| == 0 then []
    else Times(shards[0].ciphertext.text, arrived[shards[0]]) + WithRepeats(shards[1..], arrived)
  }

  function Repeat(s: Shard, n: nat): (r: seq<Shard>)
    ensures |r| == n && forall i :: 0 <= i < n ==> r[i] == s
    ensures multiset(r) == multiset{}[s := n]
  {
    if n == 0 then [] else [s] + Repeat(s, n - 1)
  }

  /** The shards that arrived, in index order. */
  function Copies(shards: seq<Shard>, arrived: multiset<Shard>): seq<Shard> {
    if |shards| == 0 then [] else Repeat(shards[0], arrived[shards[0]]) + Copies(shards[1..], arrived)
  }

  lemma {:induction false} RepeatAssembles(s: Shard, n: nat, key: nat)
    requires s.ciphertext.key == key && s.ciphertext.nonce == s.nonce
    ensures Assembled(Repeat(s, n), key) == Ok(Times(s.ciphertext.text, n))
  {
    if n > 0 {
      RepeatAssembles(s, n - 1, key);
      assert Repeat(s, n)[1..] == Repeat(s, n - 1);
    }
  }

  lemma {:induction false} CopiesAssemble(shards: seq<Shard>, arrived: multiset<Shard>, key: nat)
    requires forall s :: s in shards ==> s.ciphertext.key == key && s.ciphertext.nonce == s.nonce
    ensures Assembled(Copies(shards, arrived), key) == Ok(WithRepeats(shards, arrived))
  {
    if |shards| > 0 {
      hide Assembled;
      CopiesAssemble(shards[1..], arrived, key);
      RepeatAssembles(shards[0], arrived[shards[0]], key);
      AssembledAppend(Repeat(shards[0], arrived[shards[0]]), Copies(shards[1..], arrived), key);
    } else {
      AssembledNone(key);
    }
  }

  lemma {:induction false} CopiesMembers(shards: seq<Shard>, arrived: multiset<Shard>)
    ensures forall s :: s in Copies(shards, arrived) ==> s in shards
  {
    if |shards| > 0 {
      CopiesMembers(shards[1..], arrived);
    }
  }

  lemma {:induction false} CopiesOrdered(shards: seq<Shard>, arrived: multiset<Shard>)
    requires StrictlyOrdered(shards)
    ensures Ordered(Copies(shards, arrived)) && IndexIdentifies(Copies(shards, arrived))
  {
    if |shards| > 0 {
      CopiesOrdered(shards[1..], arrived);
      CopiesMembers(shards[1..], arrived);
      var first, rest := Repeat(shards[0], arrived[shards[0]]), Copies(shards[1..], arrived);
      forall i | 0 <= i < |rest|
        ensures shards[0].index < rest[i].index
      {
        assert rest[i] in shards[1..];
      }
    }
  }

  lemma {:induction false} CopiesCount(shards: seq<Shard>, arrived: multiset<Shard>, x: Shard)
    requires StrictlyOrdered(shards)
    ensures multiset(Copies(shards, arrived))[x] == if x in shards then arrived[x] else 0
  {
    if |shards| > 0 {
      CopiesCount(shards[1..], arrived, x);
      assert shards == [shards[0]] + shards[1..];
      assert multiset(Copies(shards, arrived)) ==
        multiset(Repeat(shards[0], arrived[shards[0]])) + multiset(Copies(shards[1..], arrived));
    }
  }

  /** Genuine shards, any of them lost or repeated and in any order, are put in index order. */
  lemma GenuineSorted(shards: seq<Shard>, arrived: seq<Shard>)
    requires StrictlyOrdered(shards) && forall s :: s in arrived ==> s in shards
    ensures SortByIndex(arrived) == Copies(shards, multiset(arrived))
  {
    hide SortByIndex, Copies;
    var copies := Copies(shards, multiset(arrived));
    forall x
      ensures multiset(copies)[x] == multiset(arrived)[x]
    {
      CopiesCount(shards, multiset(arrived), x);
      assert x in multiset(arrived) ==> x in arrived;
    }
    SortPermutes(arrived);
    CopiesOrdered(shards, multiset(arrived));
    OrderedPermutationUnique(SortByIndex(arrived), copies);
  }

  lemma GenuineOpen(fileId: string, data: Bytes, key: nat, nonces: seq<nat>, s: Shard)
    requires |nonces| == |Chunks(data, CHUNK_SIZE)|
    requires s in SplitAndEncrypt(fileId, data, key, nonces)
    ensures s.ciphertext.key == key && s.ciphertext.nonce == s.nonce && |s.ciphertext.text| > 0
  {
    hide Chunks;
    ChunksNotEmpty(data, CHUNK_SIZE);
    var i :| 0 <= i < |Chunks(data, CHUNK_SIZE)| && s == ShardOf(fileId, Chunks(data, CHUNK_SIZE), key, nonces, i);
  }

  /**
   Neither a lost shard nor a repeated one is noticed: any list of a file's shards, in any order, assembles
   without error, each chunk standing in its place as often as its shard arrived.
   */
  lemma AnyShardsAssemble(fileId: string, data: Bytes, key: nat, nonces: seq<nat>, arrived: seq<Shard>)
    requires |nonces| == |Chunks(data, CHUNK_SIZE)| <= 0x1_0000_0000
    requires forall s :: s in arrived ==> s in SplitAndEncrypt(fileId, data, key, nonces)
    ensures Assembled(SortByIndex(arrived), key) ==
      Ok(WithRepeats(SplitAndEncrypt(fileId, data, key, nonces), multiset(arrived)))
  {
    hide SortByIndex, Assembled, Chunks, WithRepeats, SplitAndEncrypt;
    var shards := SplitAndEncrypt(fileId, data, key, nonces);
    SplitOrdered(fileId, data, key, nonces);
    GenuineSorted(shards, arrived);
    forall s | s in shards
      ensures s.ciphertext.key == key && s.ciphertext.nonce == s.nonce
    {
      GenuineOpen(fileId, data, key, nonces, s);
    }
    CopiesAssemble(shards, multiset(arrived), key);
  }

  lemma SplitOrdered(fileId: string, data: Bytes, key: nat, nonces: seq<nat>)
    requires |nonces| == |Chunks(data, CHUNK_SIZE)| <= 0x1_0000_0000
    ensures StrictlyOrdered(SplitAndEncrypt(fileId, data, key, nonces))
  {
    hide Chunks;
  }

  /**
   When shards are only lost, or only repeated, the file comes out exactly when each arrived once: a part of
   the shards gives less than the file, and all of them with any repeated give more.
   */
  lemma AssemblesToDataIffComplete(fileId: string, data: Bytes, key: nat, nonces: seq<nat>, arrived: seq<Shard>)
    requires |nonces| == |Chunks(data, CHUNK_SIZE)| <= 0x1_0000_0000
    requires forall s :: s in arrived ==> s in SplitAndEncrypt(fileId, data, key, nonces)
    requires var whole := multiset(SplitAndEncrypt(fileId, data, key, nonces));
      multiset(arrived) <= whole || whole <= multiset(arrived)
    ensures Assembled(SortByIndex(arrived), key) == Ok(data) <==>
      multiset(arrived) == multiset(SplitAndEncrypt(fileId, data, key, nonces))
  {
    hide SortByIndex, Assembled, Chunks, Concat, TextTotal, SplitAndEncrypt, WithRepeats;
    var shards, sorted := SplitAndEncrypt(fileId, data, key, nonces), SortByIndex(arrived);
    forall s | s in shards
      ensures s.ciphertext.key == key && s.ciphertext.nonce == s.nonce && |s.ciphertext.text| > 0
    {
      GenuineOpen(fileId, data, key, nonces, s);
    }
    SortPermutes(arrived);
    forall s | s in sorted
      ensures s in shards
    {
      assert s in multiset(sorted);
    }
    AssembledSize(sorted, key);
    AssembledSize(shards, key);
    WholeAssembles(fileId, data, key, nonces);
    if multiset(arrived) <= multiset(shards) {
      PartCarriesLess(sorted, shards);
    } else {
      PartCarriesLess(shards, sorted);
    }
    if multiset(arrived) == multiset(shards) {
      AnyOrderAssembles(fileId, data, key, nonces, arrived);
    }
  }

  function Texts(shards: seq<Shard>): (r: seq<Bytes>)
    ensures |r| == |shards| && forall i :: 0 <= i < |r| ==> r[i] == shards[i].ciphertext.text
  {
    seq(|shards|, i requires 0 <= i < |shards| => shards[i].ciphertext.text)
  }

  /** Full pieces, but for a last one that may be shorter. */
  ghost predicate Blocks(pieces: seq<Bytes>, size: nat) {
    && (forall i :: 0 <= i < |pieces| - 1 ==> |pieces[i]| == size)
    && (|pieces| > 0 ==> 0 < |pieces[|pieces| - 1]| <= size)
  }

  /** Data has only one division into blocks. */
  lemma {:induction false} BlocksUnique(a: seq<Bytes>, b: seq<Bytes>, size: nat)
    requires Blocks(a, size) && Blocks(b, size) && Concat(a) == Concat(b)
    ensures a == b
  {
    if |a| > 0 && |b| > 0 {
      assert |a[1..]| > 0 ==> Concat(a[1..]) != [] by {
        BlocksNotEmpty(a[1..], size);
      }
      assert |b[1..]| > 0 ==> Concat(b[1..]) != [] by {
        BlocksNotEmpty(b[1..], size);
      }
      assert |a[0]| == |b[0]|;
      assert a[0] == Concat(a)[..|a[0]|] && Concat(a[1..]) == Concat(a)[|a[0]|..];
      assert b[0] == Concat(b)[..|b[0]|] && Concat(b[1..]) == Concat(b)[|b[0]|..];
      BlocksUnique(a[1..], b[1..], size);
      assert a == [a[0]] + a[1..] && b == [b[0]] + b[1..];
    } else {
      BlocksNotEmpty(a, size);
      BlocksNotEmpty(b, size);
    }
  }

  lemma BlocksNotEmpty(pieces: seq<Bytes>, size: nat)
    requires Blocks(pieces, size)
    ensures Concat(pieces) == [] <==> |pieces| == 0
  {
    if |pieces| > 0 {
      assert |pieces[0]| > 0;
    }
  }

  /** In index order, only copies of the last shard can be short. */
  lemma SortedBlocks(shards: seq<Shard>, sorted: seq<Shard>, size: nat)
    requires StrictlyOrdered(shards) && Ordered(sorted) && Blocks(Texts(shards), size)
    requires forall s :: s in sorted ==> s in shards
    requires var last := |shards| - 1; |shards| > 0 ==>
      multiset(sorted)[shards[last]] <= 1 || |shards[last].ciphertext.text| == size
    ensures Blocks(Texts(sorted), size)
  {
    forall i | 0 <= i < |sorted|
      ensures 0 < |sorted[i].ciphertext.text| <= size
      ensures i + 1 < |sorted| ==> |sorted[i].ciphertext.text| == size
    {
      assert sorted[i] in shards;
      var k :| 0 <= k < |shards| && shards[k] == sorted[i];
      assert |Texts(shards)[k]| == |shards[k].ciphertext.text|;
      if k == |shards| - 1 && i + 1 < |sorted| {
        assert sorted[i + 1] in shards;
        assert sorted[i + 1] == shards[k];
        CountedTwice(sorted, i);
      }
    }
  }

  lemma CountedTwice(s: seq<Shard>, i: nat)
    requires i + 1 < |s| && s[i] == s[i + 1]
    ensures multiset(s)[s[i]] >= 2
  {
    assert s == s[..i] + [s[i]] + [s[i + 1]] + s[i + 2..];
  }

  /**
   Shards lost and others repeated at once: while the last one is full or arrived at most once, the file comes
   out exactly when the texts that arrived are, in index order, those of the chunks.
   */
  lemma AssemblesToDataIffSameTexts(fileId: string, data: Bytes, key: nat, nonces: seq<nat>, arrived: seq<Shard>)
    requires |nonces| == |Chunks(data, CHUNK_SIZE)| <= 0x1_0000_0000
    requires forall s :: s in arrived ==> s in SplitAndEncrypt(fileId, data, key, nonces)
    requires var shards := SplitAndEncrypt(fileId, data, key, nonces); var last := |shards| - 1;
      |shards| > 0 ==> multiset(arrived)[shards[last]] <= 1 || |shards[last].ciphertext.text| == CHUNK_SIZE
    ensures Assembled(SortByIndex(arrived), key) == Ok(data) <==>
      Texts(SortByIndex(arrived)) == Chunks(data, CHUNK_SIZE)
  {
    hide SortByIndex, Assembled, Chunks, Concat, Blocks;
    var shards, sorted := SplitAndEncrypt(fileId, data, key, nonces), SortByIndex(arrived);
    var chunks := Chunks(data, CHUNK_SIZE);
    SortPermutes(arrived);
    SplitOrdered(fileId, data, key, nonces);
    ChunksCover(data, CHUNK_SIZE);
    assert Texts(shards) == chunks;
    assert Blocks(chunks, CHUNK_SIZE) by {
      ChunksAreBlocks(data, CHUNK_SIZE);
    }
    forall s | s in sorted
      ensures s in shards && s.ciphertext.key == key && s.ciphertext.nonce == s.nonce
    {
      assert s in multiset(sorted);
      GenuineOpen(fileId, data, key, nonces, s);
    }
    SortedBlocks(shards, sorted, CHUNK_SIZE);
    AssembledChunks(sorted, Texts(sorted), key);
    if Concat(Texts(sorted)) == data {
      BlocksUnique(Texts(sorted), chunks, CHUNK_SIZE);
    }
  }

  lemma ChunksAreBlocks(data: Bytes, size: nat)
    requires size > 0
    ensures Blocks(Chunks(data, size), size)
  {
    hide Chunks;
    ChunksCover(data, size);
  }

  lemma WholeAssembles(fileId: string, data: Bytes, key: nat, nonces: seq<nat>)
    requires |nonces| == |Chunks(data, CHUNK_SIZE)|
    ensures Assembled(SplitAndEncrypt(fileId, data, key, nonces), key) == Ok(data)
  {
    hide Chunks, Assembled, Concat;
    AssembledChunks(SplitAndEncrypt(fileId, data, key, nonces), Chunks(data, CHUNK_SIZE), key);
    ChunksCover(data, CHUNK_SIZE);
  }

  lemma ChunksNotEmpty(data: Bytes, size: nat)
    requires size > 0
    ensures forall i :: 0 <= i < |Chunks(data, size)| ==> |Chunks(data, size)[i]| > 0
  {
    hide Chunks;
    ChunksCover(data, size);
  }

  // --- Storage chunks --------------------------------------------------------------------------

  datatype ChunkMeta = ChunkMeta(index: nat, hash: Bytes, size: nat)

  datatype Manifest = Manifest(transferId: Bytes, totalSize: nat, contentHash: Bytes, chunks: seq<ChunkMeta>)

  function SplitChunks(data: Bytes, chunkSize: nat): seq<Bytes> {
    Chunks(data, if chunkSize < 1 then 1 else chunkSize)
  }

  function BuildManifest(hash: Bytes -> Bytes, data: Bytes, chunkSize: nat): Manifest {
    var chunks := SplitChunks(data, chunkSize);
    var metas := seq(|chunks|, i requires 0 <= i < |chunks| => ChunkMeta(i, hash(chunks[i]), |chunks[i]|));
    Manifest(hash(data), |data|, hash(data), metas)
  }

  function SumSizes(metas: seq<ChunkMeta>): nat {
    if |metas| == 0 then 0 else metas[0].size + SumSizes(metas[1..])
  }

  lemma {:induction false} SumSizesIsTotal(metas: seq<ChunkMeta>, chunks: seq<Bytes>)
    requires |metas| == |chunks| && forall i :: 0 <= i < |metas| ==> metas[i].size == |chunks[i]|
    ensures SumSizes(metas) == TotalSize(chunks)
  {
    if |metas| > 0 {
      SumSizesIsTotal(metas[1..], chunks[1..]);
    }
  }

  lemma {:induction false} FullChunks(chunks: seq<Bytes>, size: nat)
    requires |chunks| > 0 && forall i :: 0 <= i < |chunks| - 1 ==> |chunks[i]| == size
    ensures TotalSize(chunks) == (|chunks| - 1) * size + |chunks[|chunks| - 1]|
  {
    if |chunks| > 1 {
      FullChunks(chunks[1..], size);
      assert (|chunks| - 1) * size == (|chunks| - 2) * size + size;
    } else {
      assert TotalSize(chunks[1..]) == 0;
    }
  }

  /**
   A manifest lists the least number of chunks that hold the data, numbered in order and full but for the
   last; their sizes add up to the size of the data.
   */
  lemma ManifestDescribesData(hash: Bytes -> Bytes, data: Bytes, chunkSize: nat)
    ensures var m := BuildManifest(hash, data, chunkSize);
      var size := if chunkSize < 1 then 1 else chunkSize;
      && SumSizes(m.chunks) == m.totalSize == |data|
      && m.transferId == m.contentHash == hash(data)
      && (forall i :: 0 <= i < |m.chunks| ==> m.chunks[i].index == i)
      && (forall i :: 0 <= i < |m.chunks| ==>
            && i * size < |data|
            && m.chunks[i].hash == hash(data[i * size..if i * size + size < |data| then i * size + size else |data|]))
      && (forall i :: 0 <= i < |m.chunks| - 1 ==> m.chunks[i].size == size)
      && (if |m.chunks| == 0 then |data| == 0
          else (|m.chunks| - 1) * size < |data| <= (|m.chunks| - 1) * size + size)
  {
    hide Chunks;
    var size := if chunkSize < 1 then 1 else chunkSize;
    var chunks := Chunks(data, size);
    ChunksCover(data, size);
    forall i | 0 <= i < |chunks|
      ensures i * size < |data| && chunks[i] == Piece(data, size, i)
    {
      ChunkAt(data, size, i);
    }
    if |chunks| > 0 {
      FullChunks(chunks, size);
    }
    SumSizesIsTotal(BuildManifest(hash, data, chunkSize).chunks, chunks);
  }

  datatype EncryptedChunk = EncryptedChunk(index: nat, nonce: nat, ciphertext: Ciphertext<nat>, plaintextHash: Bytes)

  function EncryptChunk(hash: Bytes -> Bytes, index: nat, key: nat, text: Bytes, nonce: nat): EncryptedChunk {
    EncryptedChunk(index, nonce, Sealed(key, nonce, text), hash(text))
  }

  function DecryptChunk(hash: Bytes -> Bytes, key: nat, c: EncryptedChunk): Result<Bytes> {
    var text := Open(key, c.nonce, c.ciphertext);
    if text.Err? then Err("chunk decryption failed")
    else if hash(text.value) != c.plaintextHash then Err("chunk hash mismatch")
    else text
  }

  /** A chunk whose recorded hash may have been changed opens exactly under its key and its own hash. */
  lemma ChunkOpensIff(hash: Bytes -> Bytes, index: nat, key: nat, text: Bytes, nonce: nat, other: nat, recorded: Bytes)
    ensures var c := EncryptChunk(hash, index, key, text, nonce).(plaintextHash := recorded);
      DecryptChunk(hash, other, c) ==
        if other != key then Err("chunk decryption failed")
        else if recorded != hash(text) then Err("chunk hash mismatch")
        else Ok(text)
  {
  }
}
