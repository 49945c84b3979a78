/** Splitting a row stream into batches of a fixed size: the slices
    `rows[i : i + batch_size]` for i = 0, b, 2b, ... that `insert_data` executes,
    and the full batches `insertion_size[:batch_size]` that the drain loop of
    `api_insertion` takes while at least `batch_size` rows are buffered. */
module Batching {

  function Flatten<T>(ss: seq<seq<T>>): (s: seq<T>)
  {
    if ss == [] then [] else Flatten(ss[..|ss| - 1]) + ss[|ss| - 1]
  }

  /** Consecutive slices of `b` elements; only the last may be shorter. */
  function Chunks<T>(s: seq<T>, b: nat): seq<seq<T>>
    requires b > 0
    decreases |s|
  {
    if s == [] then [] else if |s| <= b then [s] else [s[..b]] + Chunks(s[b..], b)
  }

  /** The slices of exactly `b` elements that can be taken from the front. */
  function FullChunks<T>(s: seq<T>, b: nat): seq<seq<T>>
    requires b > 0
    decreases |s|
  {
    if |s| < b then [] else [s[..b]] + FullChunks(s[b..], b)
  }

  /** What is left once every full slice has been taken. */
  function Remainder<T>(s: seq<T>, b: nat): (r: seq<T>)
    requires b > 0
    decreases |s|
  {
    if |s| < b then s else Remainder(s[b..], b)
  }

  function Lengths<T>(ss: seq<seq<T>>): (ls: seq<nat>)
    ensures |ls| == |ss| && forall i :: 0 <= i < |ss| ==> ls[i] == |ss[i]|
  {
    if ss == [] then [] else [|ss[0]|] + Lengths(ss[1..])
  }

  lemma {:induction false} FlattenCons<T>(x: seq<T>, ss: seq<seq<T>>)
    ensures Flatten([x] + ss) == x + Flatten(ss)
    decreases |ss|
  {
    if ss == [] {
      assert [x] + ss == [x];
      assert Flatten([x]) == Flatten([]) + x;
    } else {
      var l := ss[|ss| - 1];
      var init := ss[..|ss| - 1];
      assert ([x] + ss)[..|[x] + ss| - 1] == [x] + init;
      FlattenCons(x, init);
      assert ss == init + [l];
    }
  }

  lemma {:induction false} FlattenAppend<T>(ss: seq<seq<T>>, x: seq<T>)
    ensures Flatten(ss + [x]) == Flatten(ss) + x
  {
    assert (ss + [x])[..|ss + [x]| - 1] == ss;
  }

  /** The chunks cover the input exactly once and in order; every chunk is
      non-empty and holds at most `b` elements, and only the last may hold fewer. */
  lemma {:induction false} ChunksCover<T>(s: seq<T>, b: nat)
    requires b > 0
    ensures Flatten(Chunks(s, b)) == s
    ensures forall i :: 0 <= i < |Chunks(s, b)| ==> 0 < |Chunks(s, b)[i]| <= b
    ensures forall i :: 0 <= i < |Chunks(s, b)| - 1 ==> |Chunks(s, b)[i]| == b
    decreases |s|
  {
    if s == [] {
    } else if |s| <= b {
      assert Flatten([s]) == Flatten([]) + s;
    } else {
      ChunksCover(s[b..], b);
      FlattenCons(s[..b], Chunks(s[b..], b));
      assert s[..b] + s[b..] == s;
    }
  }

  /** Full chunks and the remainder together give back the input; every full
      chunk holds `b` elements and the remainder fewer. */
  lemma FullChunksCover<T>(s: seq<T>, b: nat)
    requires b > 0
    ensures Flatten(FullChunks(s, b)) + Remainder(s, b) == s
    ensures forall i :: 0 <= i < |FullChunks(s, b)| ==> |FullChunks(s, b)[i]| == b
    ensures |Remainder(s, b)| < b
  {
    FullChunksSpell(s, b);
    FullChunksLengths(s, b);
    RemainderShort(s, b);
  }

  lemma {:induction false} FullChunksSpell<T>(s: seq<T>, b: nat)
    requires b > 0
    ensures Flatten(FullChunks(s, b)) + Remainder(s, b) == s
    decreases |s|
  {
    if |s| >= b {
      var fs := FullChunks(s[b..], b);
      FullChunksSpell(s[b..], b);
      FlattenCons(s[..b], fs);
      assert s[..b] + s[b..] == s;
    } else {
      assert Flatten(FullChunks(s, b)) == [];
    }
  }

  lemma {:induction false} FullChunksLengths<T>(s: seq<T>, b: nat)
    requires b > 0
    ensures forall i :: 0 <= i < |FullChunks(s, b)| ==> |FullChunks(s, b)[i]| == b
    decreases |s|
  {
    if |s| >= b {
      FullChunksLengths(s[b..], b);
    }
  }

  lemma {:induction false} RemainderShort<T>(s: seq<T>, b: nat)
    requires b > 0
    ensures |Remainder(s, b)| < b
    decreases |s|
  {
    if |s| >= b {
      RemainderShort(s[b..], b);
    }
  }

  /** The chunks are the full chunks followed by the remainder when it is not empty. */
  lemma {:induction false} ChunksSplit<T>(s: seq<T>, b: nat)
    requires b > 0
    ensures Chunks(s, b) == FullChunks(s, b) + (if Remainder(s, b) == [] then [] else [Remainder(s, b)])
    decreases |s|
  {
    if s == [] {
    } else if |s| < b {
    } else if |s| == b {
      assert s[b..] == [];
      assert s[..b] == s;
    } else {
      ChunksSplit(s[b..], b);
    }
  }

  /** Batches of exactly `b` elements that, followed by fewer than `b` leftover
      elements, spell `s` are the full chunks of `s`, and the leftover is its
      remainder: how the stream was cut into pages does not change the batches. */
  lemma {:induction false} BatchesDetermined<T>(fs: seq<seq<T>>, rest: seq<T>, s: seq<T>, b: nat)
    requires b > 0
    requires forall i :: 0 <= i < |fs| ==> |fs[i]| == b
    requires |rest| < b
    requires Flatten(fs) + rest == s
    ensures fs == FullChunks(s, b) && rest == Remainder(s, b)
    decreases |fs|
  {
    if fs == [] {
      assert Flatten(fs) == [];
      assert s == rest;
    } else {
      FlattenCons(fs[0], fs[1..]);
      assert fs == [fs[0]] + fs[1..];
      assert s == fs[0] + (Flatten(fs[1..]) + rest);
      assert s[..b] == fs[0];
      assert s[b..] == Flatten(fs[1..]) + rest;
      BatchesDetermined(fs[1..], rest, s[b..], b);
    }
  }

  /** 450 rows in batches of 200 give three batches of 200, 200 and 50 rows. */
  lemma FourHundredFiftyRows<T>(s: seq<T>)
    requires |s| == 450
    ensures Lengths(Chunks(s, 200)) == [200, 200, 50]
  {
    var c2 := s[200..][200..];
    assert Chunks(c2, 200) == [c2];
    assert Chunks(s[200..], 200) == [s[200..][..200]] + [c2];
    assert Chunks(s, 200) == [s[..200], s[200..][..200], c2];
  }
  /** The chunks up to and including the one that holds element `d`: the
      batches a run over `s` has started when it stops at element `d`. */
  function ChunksThrough<T>(s: seq<T>, b: nat, d: nat): seq<seq<T>>
    requires b > 0 && d < |s|
    decreases |s|
  {
    if d < b then [s[..if b < |s| then b else |s|]] else [s[..b]] + ChunksThrough(s[b..], b, d - b)
  }

  /** The started chunks are a non-empty prefix of all chunks; element `d`
      lies in the last of them and in no earlier one. */
  lemma {:induction false} ChunksThroughPrefix<T>(s: seq<T>, b: nat, d: nat)
    requires b > 0 && d < |s|
    ensures var c := ChunksThrough(s, b, d);
      && 0 < |c| <= |Chunks(s, b)| && c == Chunks(s, b)[..|c|]
      && |Flatten(c[..|c| - 1])| <= d < |Flatten(c)|
    decreases |s|
  {
    var c := ChunksThrough(s, b, d);
    if d < b {
      var hi := if b < |s| then b else |s|;
      assert Flatten(c) == Flatten([]) + s[..hi];
      assert c[..0] == [];
      if |s| <= b {
        assert s[..hi] == s;
      }
    } else {
      ChunksThroughPrefix(s[b..], b, d - b);
      var c' := ChunksThrough(s[b..], b, d - b);
      assert c == [s[..b]] + c';
      assert Chunks(s, b) == [s[..b]] + Chunks(s[b..], b);
      FlattenCons(s[..b], c');
      assert c[..|c| - 1] == [s[..b]] + c'[..|c'| - 1];
      FlattenCons(s[..b], c'[..|c'| - 1]);
    }
  }

  /** A run over `s` that has finished full chunks `done` (spelling the first
      `i` elements) and stops at element `x` of the next chunk has started
      exactly the chunks through `x`. */
  lemma {:induction false} ChunksThroughSplit<T>(s: seq<T>, b: nat, done: seq<seq<T>>, i: nat, x: nat)
    requires b > 0 && i <= x < |s| && x < i + b
    requires forall j :: 0 <= j < |done| ==> |done[j]| == b
    requires i <= |s| && Flatten(done) == s[..i]
    ensures ChunksThrough(s, b, x) == done + [s[i..if i + b < |s| then i + b else |s|]]
    decreases |done|
  {
    if done == [] {
      assert Flatten(done) == [];
      assert s[0..] == s;
    } else {
      FlattenCons(done[0], done[1..]);
      assert done == [done[0]] + done[1..];
      assert s[..i] == done[0] + Flatten(done[1..]);
      assert done[0] == s[..b];
      assert s[b..][..i - b] == Flatten(done[1..]);
      ChunksThroughSplit(s[b..], b, done[1..], i - b, x - b);
      assert s[b..][i - b..] == s[i..];
      assert s[b..][i - b..if i - b + b < |s| - b then i - b + b else |s| - b] == s[i..if i + b < |s| then i + b else |s|];
    }
  }

  /** Taking the next slice of at most `b` elements from position `i` advances
      the chunking of what remains by one chunk. */
  lemma ChunksStep<T>(s: seq<T>, b: nat, i: nat)
    requires b > 0 && i < |s|
    ensures var hi := if i + b < |s| then i + b else |s|;
      Chunks(s[i..], b) == [s[i..hi]] + Chunks(s[hi..], b)
  {
    var hi := if i + b < |s| then i + b else |s|;
    if |s[i..]| <= b {
      assert s[hi..] == [];
      assert s[i..hi] == s[i..];
    } else {
      assert s[i..][..b] == s[i..hi];
      assert s[i..][b..] == s[hi..];
    }
  }
  /** Where a loop over `range(0, len(s), b)` stands after the slices `done`,
      which spell the first `i` elements: the chunks still to come are those
      of the rest, and every slice so far is full unless the loop is over. */
  ghost predicate SliceProgress<T>(s: seq<T>, b: nat, done: seq<seq<T>>, i: int)
    requires b > 0
  {
    && 0 <= i <= |s|
    && Chunks(s, b) == done + Chunks(s[i..], b)
    && Flatten(done) == s[..i]
    && (i < |s| ==> forall j :: 0 <= j < |done| ==> |done[j]| == b)
  }

  /** `s[i : i + b]` ends here, Python's slice clamping to the length. */
  function SliceEnd(n: nat, b: nat, i: nat): nat
  {
    if i + b < n then i + b else n
  }

  lemma SliceProgressStart<T>(s: seq<T>, b: nat)
    requires b > 0
    ensures SliceProgress(s, b, [], 0)
  {
    assert s[0..] == s;
    assert Flatten<T>([]) == [];
  }

  lemma SliceProgressStep<T>(s: seq<T>, b: nat, done: seq<seq<T>>, i: nat)
    requires b > 0 && i < |s| && SliceProgress(s, b, done, i)
    ensures var hi := SliceEnd(|s|, b, i); SliceProgress(s, b, done + [s[i..hi]], hi)
  {
    var hi := SliceEnd(|s|, b, i);
    var batch := s[i..hi];
    var done' := done + [batch];
    assert Chunks(s, b) == done' + Chunks(s[hi..], b) by {
      ChunksStep(s, b, i);
      assert done + ([batch] + Chunks(s[hi..], b)) == done' + Chunks(s[hi..], b);
    }
    assert Flatten(done') == s[..hi] by {
      FlattenAppend(done, batch);
      assert s[..hi] == s[..i] + batch;
    }
    assert hi < |s| ==> forall j :: 0 <= j < |done'| ==> |done'[j]| == b by {
      if hi < |s| {
        assert |batch| == b;
      }
    }
  }

  /** A loop that stops inside the slice starting at `i` has started exactly
      the chunks through the element where it stopped. */
  lemma SliceProgressStop<T>(s: seq<T>, b: nat, done: seq<seq<T>>, i: nat, x: nat)
    requires b > 0 && i < |s| && SliceProgress(s, b, done, i)
    requires i <= x < SliceEnd(|s|, b, i)
    ensures ChunksThrough(s, b, x) == done + [s[i..SliceEnd(|s|, b, i)]]
  {
    ChunksThroughSplit(s, b, done, i, x);
  }

  lemma SliceProgressEnd<T>(s: seq<T>, b: nat, done: seq<seq<T>>)
    requires b > 0 && SliceProgress(s, b, done, |s|)
    ensures done == Chunks(s, b)
  {
    assert s[|s|..] == [];
  }
}
