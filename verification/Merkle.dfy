/** Merkle roots of a block's transactions, from the whole list and from the coinbase's path. */
module Merkle {
  import opened Bytes
  import opened Crypto

  // Double SHA-256.
  function DHash(b: bytes): (h: bytes)
    ensures |h| == HASH_LEN
  {
    Sha256(Sha256(b))
  }

  // The level above: neighbours hashed together, the last one with itself when it has none.
  function Level(hs: seq<bytes>): (up: seq<bytes>)
    ensures |up| == (|hs| + 1) / 2
  {
    seq((|hs| + 1) / 2, i requires 0 <= i < (|hs| + 1) / 2 =>
      DHash(hs[2 * i] + if 2 * i + 1 < |hs| then hs[2 * i + 1] else hs[2 * i]))
  }

  // The root of the full tree.
  function Root(hs: seq<bytes>): bytes
    requires hs != []
    decreases |hs|
  {
    if |hs| == 1 then hs[0] else Root(Level(hs))
  }

  // Three leaves, in plain hashes: neighbours are hashed twice together, left before right, and the
  // third with itself.
  lemma RootOfThree(a: bytes, b: bytes, c: bytes)
    ensures Root([a]) == a && Root([a, b]) == Sha256(Sha256(a + b))
    ensures Root([a, b, c]) == Sha256(Sha256(Sha256(Sha256(a + b)) + Sha256(Sha256(c + c))))
  {
    hide Sha256;
    var left, right := DHash(a + b), DHash(c + c);
    assert Level([a, b]) == [left];
    assert Level([a, b, c]) == [left, right];
    assert Level([left, right]) == [DHash(left + right)];
    assert Root([a, b, c]) == Root([left, right]) == DHash(left + right);
  }

  // The right neighbour of the leftmost node on each level of the full tree.
  ghost function LeftSpine(hs: seq<bytes>): seq<bytes>
    requires hs != []
    decreases |hs|
  {
    if |hs| == 1 then [] else [hs[1]] + LeftSpine(Level(hs))
  }

  // The path handed to miners, computed without the coinbase.
  function Path(others: seq<bytes>): seq<bytes>
    decreases |others|
  {
    if others == [] then [] else [others[0]] + Path(Level(others[1..]))
  }

  // `reduce_path` as a fold from the left.
  function Fold(id: bytes, path: seq<bytes>): bytes {
    if path == [] then id else DHash(Fold(id, path[..|path| - 1]) + path[|path| - 1])
  }

  // Above the coinbase, only the first node depends on it.
  lemma LevelOfCoinbase(id: bytes, others: seq<bytes>)
    requires others != []
    ensures Level([id] + others) == [DHash(id + others[0])] + Level(others[1..])
  {
    hide DHash;
    var hs, rest := [id] + others, others[1..];
    forall i | 0 < i < |Level(hs)|
      ensures Level(hs)[i] == Level(rest)[i - 1]
    {
      assert hs[2 * i] == rest[2 * (i - 1)];
      assert 2 * i + 1 < |hs| ==> hs[2 * i + 1] == rest[2 * (i - 1) + 1];
    }
  }

  // The path is the left spine, whatever the coinbase.
  lemma {:induction false} PathIsLeftSpine(id: bytes, others: seq<bytes>)
    ensures LeftSpine([id] + others) == Path(others)
    decreases |others|
  {
    if others == [] {
      assert [id] + [] == [id];
    } else {
      LevelOfCoinbase(id, others);
      PathIsLeftSpine(DHash(id + others[0]), Level(others[1..]));
    }
  }

  lemma {:induction false} FoldFirst(id: bytes, first: bytes, path: seq<bytes>)
    ensures Fold(id, [first] + path) == Fold(DHash(id + first), path)
    decreases |path|
  {
    var all := [first] + path;
    if path == [] {
      assert all[..0] == [];
      assert Fold(id, all[..0]) == id;
    } else {
      assert all[..|all| - 1] == [first] + path[..|path| - 1];
      FoldFirst(id, first, path[..|path| - 1]);
    }
  }

  // The fast form is the root of the full tree, for every list of transactions.
  lemma {:induction false} FoldIsRoot(id: bytes, others: seq<bytes>)
    ensures Fold(id, Path(others)) == Root([id] + others)
    decreases |others|
  {
    if others == [] {
      assert [id] + [] == [id];
    } else {
      LevelOfCoinbase(id, others);
      FoldFirst(id, others[0], Path(Level(others[1..])));
      FoldIsRoot(DHash(id + others[0]), Level(others[1..]));
    }
  }

  // `reduce_path`
  method ReducePath(coinbaseId: bytes, path: seq<bytes>) returns (root: bytes)
    ensures root == Fold(coinbaseId, path)
  {
    root := coinbaseId;
    for i := 0 to |path|
      invariant root == Fold(coinbaseId, path[..i])
    {
      var toHash := root + path[i];
      root := DHash(toHash);
      assert path[..i + 1][..i] == path[..i];
    }
    assert path[..|path|] == path;
  }

  // `merkle_root_from_path_`, on the path of a block, computes the root of the block.
  method MerkleRootFromPath_(coinbaseId: bytes, path: seq<bytes>) returns (root: bytes)
    ensures root == Fold(coinbaseId, path)
    ensures forall others :: path == Path(others) ==> root == Root([coinbaseId] + others)
  {
    if |path| == 0 {
      root := coinbaseId;
    } else {
      root := ReducePath(coinbaseId, path);
    }
    forall others | path == Path(others) ensures root == Root([coinbaseId] + others) {
      FoldIsRoot(coinbaseId, others);
    }
  }
}
