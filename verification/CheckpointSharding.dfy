// Dividing checkpoint files or tensors among ranks, and ranks among inference
// groups (examples/checkpoint_engine/update.py).
module CheckpointSharding {
  import opened Arithmetic

  function PerRank(n: nat, world: nat): nat
    requires world > 0
  {
    (n + world - 1) / world
  }

  // Python's s[lo:hi] for non-negative bounds.
  function Slice<T>(s: seq<T>, lo: nat, hi: nat): seq<T> {
    var l := if lo <= |s| then lo else |s|;
    var h := if hi <= |s| then hi else |s|;
    if l <= h then s[l..h] else []
  }

  function Shard<T>(s: seq<T>, rank: nat, world: nat): seq<T>
    requires world > 0
  {
    Slice(s, rank * PerRank(|s|, world), (rank + 1) * PerRank(|s|, world))
  }

  function Shards<T>(s: seq<T>, ranks: nat, world: nat): seq<T>
    requires world > 0
  {
    if ranks == 0 then [] else Shards(s, ranks - 1, world) + Shard(s, ranks - 1, world)
  }

  lemma EnoughRoom(n: nat, world: nat)
    requires world > 0
    ensures n <= world * PerRank(n, world)
    ensures n > 0 ==> PerRank(n, world) > 0
  {
    DivMod(n + world - 1, world);
    if n > 0 {
      Stretch(n + world - 1, world, 0);
    }
  }

  // No fewer per rank would do.
  lemma PerRankLeast(n: nat, world: nat, per: nat)
    requires world > 0
    ensures n <= world * per <==> PerRank(n, world) <= per
  {
    var least := PerRank(n, world);
    EnoughRoom(n, world);
    if least <= per {
      MulMonotone(least, per, world);
    } else {
      MulMonotone(per + 1, least, world);
      DivMod(n + world - 1, world);
      assert (per + 1) * world == world * per + world;
    }
  }

  lemma SliceOn<T>(s: seq<T>, a: nat, b: nat)
    requires a <= b
    ensures Slice(s, 0, a) + Slice(s, a, b) == Slice(s, 0, b)
  {
  }

  lemma {:induction false} ShardsArePrefix<T>(s: seq<T>, ranks: nat, world: nat)
    requires world > 0
    ensures Shards(s, ranks, world) == Slice(s, 0, ranks * PerRank(|s|, world))
  {
    hide PerRank;
    var per := PerRank(|s|, world);
    if ranks == 0 {
      MulMonotone(0, 0, per);
    } else {
      ShardsArePrefix(s, ranks - 1, world);
      MulMonotone(0, ranks - 1, per);
      MulMonotone(ranks - 1, ranks, per);
      SliceOn(s, (ranks - 1) * per, ranks * per);
      ShardIs(s, ranks - 1, world);
      hide Slice, Shard;
    }
  }

  lemma ShardIs<T>(s: seq<T>, rank: nat, world: nat)
    requires world > 0
    ensures Shard(s, rank, world) == Slice(s, rank * PerRank(|s|, world), (rank + 1) * PerRank(|s|, world))
  {
  }

  // The shards of all ranks, in rank order, are the whole list.
  lemma ShardsConcatenate<T>(s: seq<T>, world: nat)
    requires world > 0
    ensures Shards(s, world, world) == s
  {
    ShardsArePrefix(s, world, world);
    EnoughRoom(|s|, world);
  }

  // Entry p of a rank's shard is item i of the list.
  ghost predicate ItemAt<T>(s: seq<T>, rank: nat, world: nat, p: nat, i: nat)
    requires world > 0
  {
    && p < |Shard(s, rank, world)| && i < |s| && rank * PerRank(|s|, world) + p == i
    && Shard(s, rank, world)[p] == s[i]
  }

  // Every item stands in the shard of exactly one rank, which exists.
  lemma ItemOnOneRank<T>(s: seq<T>, world: nat, i: nat, rank: nat)
    requires world > 0 && i < |s|
    ensures PerRank(|s|, world) > 0 && i / PerRank(|s|, world) < world
    ensures (exists p :: ItemAt(s, rank, world, p, i)) <==> rank == i / PerRank(|s|, world)
  {
    var per := PerRank(|s|, world);
    EnoughRoom(|s|, world);
    QuotientBelow(i, per, world);
    Stretch(i, per, rank);
    MulMonotone(rank, rank + 1, per);
    if rank == i / per {
      SliceItem(s, rank * per, (rank + 1) * per, i);
      assert ItemAt(s, rank, world, i - rank * per, i);
    }
    forall p | ItemAt(s, rank, world, p, i) ensures rank == i / per {
      SliceLength(s, rank * per, (rank + 1) * per);
    }
  }

  lemma SliceItem<T>(s: seq<T>, lo: nat, hi: nat, i: nat)
    requires lo <= i < hi && i < |s|
    ensures i - lo < |Slice(s, lo, hi)| && Slice(s, lo, hi)[i - lo] == s[i]
  {
  }

  lemma SliceLength<T>(s: seq<T>, lo: nat, hi: nat)
    requires lo <= hi
    ensures |Slice(s, lo, hi)| <= hi - lo
  {
  }

  // ----- split_tensors -----

  // A tensor name and the file that holds it.
  datatype Weight = Weight(name: string, file: string)

  ghost predicate DistinctNames(ws: seq<Weight>) {
    forall i, j :: 0 <= i < j < |ws| ==> ws[i].name != ws[j].name
  }

  // The names held by one file, in the order of the index.
  function NamesIn(ws: seq<Weight>, file: string): seq<string> {
    if ws == [] then []
    else NamesIn(ws[..|ws| - 1], file) + if ws[|ws| - 1].file == file then [ws[|ws| - 1].name] else []
  }

  lemma {:induction false} NamesInIff(ws: seq<Weight>, file: string, name: string)
    ensures name in NamesIn(ws, file) <==> Weight(name, file) in ws
  {
    if ws != [] {
      NamesInIff(ws[..|ws| - 1], file, name);
      assert ws == ws[..|ws| - 1] + [ws[|ws| - 1]];
    }
  }

  // A file is listed exactly if it holds a name, with its names in order.
  ghost predicate Grouped(ws: seq<Weight>, files: map<string, seq<string>>) {
    forall f :: (f in files <==> NamesIn(ws, f) != []) && (f in files ==> files[f] == NamesIn(ws, f))
  }

  method GroupByFile(ws: seq<Weight>) returns (files: map<string, seq<string>>)
    ensures Grouped(ws, files)
  {
    files := map[];
    for k := 0 to |ws|
      invariant Grouped(ws[..k], files)
    {
      var w := ws[k];
      GroupGrows(ws[..k], files, w);
      assert ws[..k + 1] == ws[..k] + [w];
      files := files[w.file := (if w.file in files then files[w.file] else []) + [w.name]];
    }
    assert ws[..|ws|] == ws;
  }

  lemma GroupGrows(ws: seq<Weight>, files: map<string, seq<string>>, w: Weight)
    requires Grouped(ws, files)
    ensures Grouped(ws + [w], files[w.file := (if w.file in files then files[w.file] else []) + [w.name]])
  {
    assert (ws + [w])[..|ws|] == ws;
    forall f ensures NamesIn(ws + [w], f) == NamesIn(ws, f) + if w.file == f then [w.name] else [] {}
  }

  // The tensors a rank reads are exactly the names of its shard, from the
  // files they are in.
  method SplitTensors(ws: seq<Weight>, rank: nat, world: nat) returns (tensors: map<string, string>)
    requires world > 0 && DistinctNames(ws)
    ensures forall n :: n in tensors <==> exists i :: 0 <= i < |Shard(ws, rank, world)| && Shard(ws, rank, world)[i].name == n
    ensures forall i :: 0 <= i < |Shard(ws, rank, world)| ==>
              var w := Shard(ws, rank, world)[i];
              w.name in tensors && tensors[w.name] == w.file
  {
    var shard := Shard(ws, rank, world);
    var files := GroupByFile(shard);
    forall f, n ensures n in NamesIn(shard, f) <==> Weight(n, f) in shard {
      NamesInIff(shard, f, n);
    }
    tensors := map[];
    var todo := files.Keys;
    while todo != {}
      invariant todo <= files.Keys
      invariant forall n :: n in tensors ==> Weight(n, tensors[n]) in shard
      invariant forall i :: 0 <= i < |shard| && shard[i].file !in todo ==> shard[i].name in tensors
      decreases todo
    {
      var f :| f in todo;
      var names := files[f];
      ghost var before := tensors;
      for k := 0 to |names|
        invariant forall n :: n in before || n in names[..k] ==> n in tensors
        invariant forall n :: n in tensors ==> Weight(n, tensors[n]) in shard
      {
        assert names[k] in files[f];
        assert names[..k + 1] == names[..k] + [names[k]];
        tensors := tensors[names[k] := f];
      }
      assert names[..|names|] == names;
      todo := todo - {f};
    }
    NamesAreFiles(ws, rank, world, shard);
    forall i | 0 <= i < |shard| ensures shard[i].name in tensors && tensors[shard[i].name] == shard[i].file {
      assert Weight(shard[i].name, tensors[shard[i].name]) in shard;
    }
    forall n | n in tensors ensures exists i :: 0 <= i < |shard| && shard[i].name == n {
      var i :| 0 <= i < |shard| && shard[i] == Weight(n, tensors[n]);
    }
  }

  lemma NamesAreFiles(ws: seq<Weight>, rank: nat, world: nat, shard: seq<Weight>)
    requires world > 0 && DistinctNames(ws) && shard == Shard(ws, rank, world)
    ensures forall a, b :: a in shard && b in shard && a.name == b.name ==> a == b
  {
    forall a, b | a in shard && b in shard && a.name == b.name ensures a == b {
      assert a in ws && b in ws;
      var i :| 0 <= i < |ws| && ws[i] == a;
      var j :| 0 <= j < |ws| && ws[j] == b;
      assert i == j;
    }
  }

  // ----- inference groups -----

  // The rank that posts for the group of `rank`.
  function Source(rank: nat, size: nat): nat
    requires size > 0
  {
    rank / size * size
  }

  // A rank's socket is in the slice posted by exactly one poster: its source.
  lemma OnePosterPerRank(rank: nat, size: nat, poster: nat)
    requires size > 0
    ensures Source(Source(rank, size), size) == Source(rank, size) <= rank < Source(rank, size) + size
    ensures poster == Source(poster, size) && poster <= rank < poster + size <==> poster == Source(rank, size)
  {
    var q := rank / size;
    DivMod(rank, size);
    DivIs(q * size, size, q, 0);
    if poster == Source(poster, size) && poster <= rank < poster + size {
      DivIs(rank, size, poster / size, rank - poster);
    }
  }
}
