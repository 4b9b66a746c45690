/** Batch writes of `LevelDB.batch_write` (`cdf/utils/kvstore/leveldb.py`).
    The database is seen through the write batches it has committed, in commit
    order; what the storage engine does with them (key ordering, lookups) is
    not modelled. */
module KvStore {
  import opened PyText

  type Pair = (string, string)
  type Batch = seq<Pair>

  /** The pairs of a sequence of batches, batch after batch. */
  function Flatten(batches: seq<Batch>): seq<Pair> {
    if batches == [] then [] else batches[0] + Flatten(batches[1..])
  }

  /** `(str(k), str(v))` for each pair of the stream, in stream order. */
  function Stringify<K, V>(kvStream: seq<(K, V)>, keyStr: K -> string, valueStr: V -> string): (ps: seq<Pair>)
    ensures |ps| == |kvStream|
    ensures forall i :: 0 <= i < |ps| ==> ps[i] == (keyStr(kvStream[i].0), valueStr(kvStream[i].1))
  {
    seq(|kvStream|, i requires 0 <= i < |kvStream| => (keyStr(kvStream[i].0), valueStr(kvStream[i].1)))
  }

  function Abs(n: int): nat {
    if n < 0 then -n else n
  }

  /** The commit condition of the loop, `count != 0 and count % batch_size == 0`
      (Python's `%` by a negative divisor is zero exactly when Dafny's is). */
  predicate CommitsAfter(count: nat, batchSize: int)
    requires batchSize != 0
  {
    count != 0 && count % batchSize == 0
  }

  /** Pairs cut into consecutive groups of `size`; the last group holds what
      remains, which may be nothing. */
  function Chunks(ps: seq<Pair>, size: nat): (bs: seq<Batch>)
    requires size > 0
    ensures |bs| >= 1
    decreases |ps|
  {
    if |ps| < size then [ps] else [ps[..size]] + Chunks(ps[size..], size)
  }

  /** The batches `batch_write` commits, as a closed form: with s = |batch_size|,
      the first holds s + 1 pairs, each later one s, and the final write the
      rest (possibly nothing). */
  function WrittenBatches(ps: seq<Pair>, batchSize: int): (bs: seq<Batch>)
    requires batchSize != 0
    ensures |bs| >= 1
  {
    var s := Abs(batchSize);
    if |ps| <= s then [ps] else [ps[..s + 1]] + Chunks(ps[s + 1..], s)
  }

  /** Everything `batch_write` commits, or the error it raises: with
      `batch_size == 0`, `count % batch_size` raises ZeroDivisionError at the
      second pair, before anything was written. */
  function BatchWriteOutcome(ps: seq<Pair>, batchSize: int): (r: Result<seq<Batch>>)
    ensures r.Err? <==> batchSize == 0 && |ps| >= 2
    ensures r.Err? ==> r.error == ZeroDivisionError
    ensures r.Ok? ==> Flatten(r.value) == ps
  {
    if batchSize == 0 then
      if |ps| <= 1 then
        assert Flatten([ps]) == ps + Flatten([]);
        Ok([ps])
      else Err(ZeroDivisionError)
    else
      WrittenFlatten(ps, batchSize);
      Ok(WrittenBatches(ps, batchSize))
  }

  /** The batches with one more pair put into the last (open) one. */
  function AppendToLast(bs: seq<Batch>, p: Pair): (r: seq<Batch>)
    requires |bs| >= 1
    ensures |r| == |bs| && r[..|r| - 1] == bs[..|bs| - 1] && r[|r| - 1] == bs[|bs| - 1] + [p]
  {
    bs[..|bs| - 1] + [bs[|bs| - 1] + [p]]
  }

  // ---------------------------------------------------------------------------
  // Arithmetic and grouping lemmas

  lemma {:induction false} MulAtLeast(d: int, s: int)
    requires d >= 1 && s >= 0
    ensures d * s >= s
    decreases d
  {
    if d > 1 {
      MulAtLeast(d - 1, s);
      assert d * s == (d - 1) * s + s;
    }
  }

  /** Euclidean division has one quotient and one remainder. */
  lemma DivModUnique(n: int, s: int, q: int, r: int)
    requires s > 0 && 0 <= r < s && n == q * s + r
    ensures n / s == q && n % s == r
  {
    var q', r' := n / s, n % s;
    assert n == q' * s + r';
    if q' > q {
      assert q' * s == q * s + (q' - q) * s;
      MulAtLeast(q' - q, s);
    } else if q' < q {
      assert q * s == q' * s + (q - q') * s;
      MulAtLeast(q - q', s);
    }
  }

  lemma ModDivSub(n: int, s: int)
    requires n >= s > 0
    ensures (n - s) % s == n % s && (n - s) / s == n / s - 1
  {
    var q, r := n / s, n % s;
    assert n - s == (q - 1) * s + r;
    DivModUnique(n - s, s, q - 1, r);
  }

  /** A negative divisor divides exactly the numbers its absolute value divides. */
  lemma CommitsAfterAbs(count: nat, batchSize: int)
    requires batchSize != 0
    ensures CommitsAfter(count, batchSize) <==> count != 0 && count % Abs(batchSize) == 0
  {
    if batchSize < 0 {
      var q, r := count / batchSize, count % batchSize;
      assert count == q * batchSize + r;
      assert count == (-q) * Abs(batchSize) + r;
      DivModUnique(count, Abs(batchSize), -q, r);
    }
  }

  lemma {:induction false} FlattenAppend(a: seq<Batch>, b: seq<Batch>)
    ensures Flatten(a + b) == Flatten(a) + Flatten(b)
  {
    if a == [] {
      assert a + b == b;
    } else {
      assert (a + b)[0] == a[0];
      assert (a + b)[1..] == a[1..] + b;
      FlattenAppend(a[1..], b);
    }
  }

  lemma {:induction false} ChunksFlatten(ps: seq<Pair>, s: nat)
    requires s > 0
    ensures Flatten(Chunks(ps, s)) == ps
    decreases |ps|
  {
    if |ps| < s {
      assert Flatten([ps]) == ps + Flatten([]);
    } else {
      ChunksFlatten(ps[s..], s);
      assert ps[..s] + ps[s..] == ps;
    }
  }

  /** Every group but the last has exactly `s` pairs; the last has |ps| % s;
      there are 1 + |ps| / s groups. */
  lemma {:induction false} ChunkSizes(ps: seq<Pair>, s: nat)
    requires s > 0
    ensures |Chunks(ps, s)| == 1 + |ps| / s
    ensures forall i :: 0 <= i < |Chunks(ps, s)| - 1 ==> |Chunks(ps, s)[i]| == s
    ensures |Chunks(ps, s)[|Chunks(ps, s)| - 1]| == |ps| % s
    decreases |ps|
  {
    if |ps| >= s {
      ChunkSizes(ps[s..], s);
      ModDivSub(|ps|, s);
      var bs := Chunks(ps, s);
      assert bs[1..] == Chunks(ps[s..], s);
      forall i | 0 <= i < |bs| - 1
        ensures |bs[i]| == s
      {
        if i > 0 {
          assert bs[i] == Chunks(ps[s..], s)[i - 1];
        }
      }
    }
  }

  /** Putting one more pair into a group that stays short of `s`. */
  lemma ChunksSnocShort(ps: seq<Pair>, p: Pair, s: nat)
    requires s > 0 && |ps| + 1 < s
    ensures Chunks(ps + [p], s) == AppendToLast(Chunks(ps, s), p)
  {
    assert Chunks(ps, s) == [ps];
    assert Chunks(ps + [p], s) == [ps + [p]];
  }

  /** Putting the pair that fills the only group to `s`: an empty group opens. */
  lemma ChunksSnocFill(ps: seq<Pair>, p: Pair, s: nat)
    requires s > 0 && |ps| + 1 == s
    ensures Chunks(ps + [p], s) == AppendToLast(Chunks(ps, s), p) + [[]]
  {
    var q := ps + [p];
    assert q[..s] == q && q[s..] == [];
    assert Chunks(q[s..], s) == [[]];
    assert Chunks(q, s) == [q] + [[]];
    assert Chunks(ps, s) == [ps];
  }

  /** Putting one more pair: it joins the last group, and a new empty group
      opens once that group reaches `s` pairs. */
  lemma {:induction false} ChunksSnoc(ps: seq<Pair>, p: Pair, s: nat)
    requires s > 0
    ensures Chunks(ps + [p], s) ==
            AppendToLast(Chunks(ps, s), p) + (if (|ps| + 1) % s == 0 then [[]] else [])
    decreases |ps|
  {
    var n := |ps| + 1;
    if n < s {
      DivModUnique(n, s, 0, n);
      ChunksSnocShort(ps, p, s);
    } else if n == s {
      DivModUnique(n, s, 1, 0);
      ChunksSnocFill(ps, p, s);
    } else {
      var q := ps + [p];
      assert q[..s] == ps[..s];
      assert q[s..] == ps[s..] + [p];
      ChunksSnoc(ps[s..], p, s);
      ModDivSub(n, s);
      assert Chunks(q, s) == [ps[..s]] + Chunks(ps[s..] + [p], s);
      ChunksSnocFront(ps, p, s);
    }
  }

  lemma ChunksSnocFront(ps: seq<Pair>, p: Pair, s: nat)
    requires s > 0 && |ps| >= s
    ensures AppendToLast(Chunks(ps, s), p) == [ps[..s]] + AppendToLast(Chunks(ps[s..], s), p)
  {
    var tail := Chunks(ps[s..], s);
    assert Chunks(ps, s) == [ps[..s]] + tail;
  }

  // ---------------------------------------------------------------------------
  // Properties of the batches `batch_write` commits

  /** Every pair of the stream is put exactly once, in stream order. */
  lemma WrittenFlatten(ps: seq<Pair>, batchSize: int)
    requires batchSize != 0
    ensures Flatten(WrittenBatches(ps, batchSize)) == ps
  {
    var s := Abs(batchSize);
    if |ps| <= s {
      assert Flatten([ps]) == ps + Flatten([]);
    } else {
      ChunksFlatten(ps[s + 1..], s);
      assert ps[..s + 1] + ps[s + 1..] == ps;
    }
  }

  /** One write for an empty stream, and 1 + (n - 1) div |batch_size| writes
      for n >= 1 pairs; the last write is always there, and may be empty. */
  lemma WrittenCount(ps: seq<Pair>, batchSize: int)
    requires batchSize != 0
    ensures |WrittenBatches(ps, batchSize)| == if ps == [] then 1 else 1 + (|ps| - 1) / Abs(batchSize)
  {
    var s := Abs(batchSize);
    if |ps| > s {
      ChunkSizes(ps[s + 1..], s);
      ModDivSub(|ps| - 1, s);
    } else if ps != [] {
      DivModUnique(|ps| - 1, s, 0, |ps| - 1);
    }
  }

  /** With s = |batch_size| and more than s pairs, the first committed batch
      holds s + 1 pairs, every later intermediate batch s, and the final one
      (n - 1) mod s. */
  lemma WrittenSizes(ps: seq<Pair>, batchSize: int)
    requires batchSize != 0 && |ps| > Abs(batchSize)
    ensures var bs, s := WrittenBatches(ps, batchSize), Abs(batchSize);
            |bs| >= 2 && |bs[0]| == s + 1 &&
            (forall i :: 1 <= i < |bs| - 1 ==> |bs[i]| == s) &&
            |bs[|bs| - 1]| == (|ps| - 1) % s
  {
    var s := Abs(batchSize);
    var bs := WrittenBatches(ps, batchSize);
    var rest := Chunks(ps[s + 1..], s);
    ChunkSizes(ps[s + 1..], s);
    ModDivSub(|ps| - 1, s);
    assert bs[1..] == rest;
    forall i | 1 <= i < |bs| - 1
      ensures |bs[i]| == s
    {
      assert bs[i] == rest[i - 1];
    }
  }

  lemma WrittenSnocShort(ps: seq<Pair>, p: Pair, batchSize: int)
    requires batchSize != 0 && |ps| < Abs(batchSize)
    ensures WrittenBatches(ps + [p], batchSize) == AppendToLast(WrittenBatches(ps, batchSize), p)
  {
    assert WrittenBatches(ps, batchSize) == [ps];
    assert WrittenBatches(ps + [p], batchSize) == [ps + [p]];
  }

  lemma WrittenSnocFirstCommit(ps: seq<Pair>, p: Pair, batchSize: int)
    requires batchSize != 0 && |ps| == Abs(batchSize)
    ensures WrittenBatches(ps + [p], batchSize) == AppendToLast(WrittenBatches(ps, batchSize), p) + [[]]
  {
    var s := Abs(batchSize);
    var q := ps + [p];
    assert q[..s + 1] == q && q[s + 1..] == [];
    assert Chunks(q[s + 1..], s) == [[]];
    assert WrittenBatches(q, batchSize) == [q] + [[]];
    assert WrittenBatches(ps, batchSize) == [ps];
  }

  lemma WrittenSnocLater(ps: seq<Pair>, p: Pair, batchSize: int)
    requires batchSize != 0 && |ps| > Abs(batchSize)
    ensures WrittenBatches(ps + [p], batchSize) ==
            AppendToLast(WrittenBatches(ps, batchSize), p) +
            (if |ps| % Abs(batchSize) == 0 then [[]] else [])
  {
    var s := Abs(batchSize);
    var q := ps + [p];
    assert q[..s + 1] == ps[..s + 1];
    assert q[s + 1..] == ps[s + 1..] + [p];
    ChunksSnoc(ps[s + 1..], p, s);
    ModDivSub(|ps|, s);
    assert |ps[s + 1..]| + 1 == |ps| - s;
    assert WrittenBatches(q, batchSize) == [ps[..s + 1]] + Chunks(ps[s + 1..] + [p], s);
    WrittenSnocFront(ps, p, s);
  }

  /** The loop's rule, as the closed form sees it: putting the pair at index
      `count` extends the open batch, and that batch is committed right after
      it exactly when `count != 0 and count % batch_size == 0`. */
  lemma WrittenStep(ps: seq<Pair>, p: Pair, batchSize: int)
    requires batchSize != 0
    ensures WrittenBatches(ps + [p], batchSize) ==
            AppendToLast(WrittenBatches(ps, batchSize), p) +
            (if CommitsAfter(|ps|, batchSize) then [[]] else [])
  {
    var s := Abs(batchSize);
    var n := |ps|;
    CommitsAfterAbs(n, batchSize);
    if n < s {
      if n > 0 {
        DivModUnique(n, s, 0, n);
      }
      WrittenSnocShort(ps, p, batchSize);
    } else if n == s {
      DivModUnique(n, s, 1, 0);
      WrittenSnocFirstCommit(ps, p, batchSize);
    } else {
      WrittenSnocLater(ps, p, batchSize);
    }
  }

  lemma WrittenSnocFront(ps: seq<Pair>, p: Pair, s: nat)
    requires s > 0 && |ps| > s
    ensures AppendToLast([ps[..s + 1]] + Chunks(ps[s + 1..], s), p) ==
            [ps[..s + 1]] + AppendToLast(Chunks(ps[s + 1..], s), p)
  {
  }

  /** As written, a stream of exactly |batch_size| + 1 pairs goes out in one
      batch of |batch_size| + 1 pairs, followed by an empty final write. */
  lemma FirstBatchOversized(ps: seq<Pair>, batchSize: int)
    requires batchSize != 0 && |ps| == Abs(batchSize) + 1
    ensures WrittenBatches(ps, batchSize) == [ps, []]
    ensures |WrittenBatches(ps, batchSize)[0]| > Abs(batchSize)
  {
    assert ps[..|ps|] == ps;
  }

  /** The grouping the docstring ("size of each write batch") promises: every
      committed batch but the final write holds exactly `batchSize` pairs, and
      every pair goes out once, in order. */
  lemma IntendedBatches(ps: seq<Pair>, batchSize: nat)
    requires batchSize > 0
    ensures Flatten(Chunks(ps, batchSize)) == ps
    ensures forall i :: 0 <= i < |Chunks(ps, batchSize)| - 1 ==> |Chunks(ps, batchSize)[i]| == batchSize
    ensures |Chunks(ps, batchSize)[|Chunks(ps, batchSize)| - 1]| < batchSize
  {
    ChunksFlatten(ps, batchSize);
    ChunkSizes(ps, batchSize);
  }

  /** The log with the open batch after it, before and after one more put:
      the put lands in the open batch, which is the last batch of the spec;
      a commit then leaves a new, empty batch open. */
  lemma PutIntoOpen(log: seq<Batch>, batch: Batch, prior: seq<Batch>, w: seq<Batch>, p: Pair, commit: bool)
    requires |w| >= 1 && log + [batch] == prior + w
    ensures commit ==> (log + [batch + [p]]) + [[]] == prior + (AppendToLast(w, p) + [[]])
    ensures !commit ==> log + [batch + [p]] == prior + AppendToLast(w, p)
  {
    assert |log| == |prior| + |w| - 1;
    assert log == prior + w[..|w| - 1] by {
      assert forall i :: 0 <= i < |log| ==> log[i] == (log + [batch])[i];
    }
    assert batch == w[|w| - 1] by {
      assert batch == (log + [batch])[|log|];
    }
    if commit {
      assert prior + (AppendToLast(w, p) + [[]]) == (prior + AppendToLast(w, p)) + [[]];
    }
  }

  // ---------------------------------------------------------------------------
  // The database object

  class LevelDB {
    /** The write batches committed through `self.db.Write`, oldest first. */
    var log: seq<Batch>

    constructor ()
      ensures log == []
    {
      log := [];
    }

    /** The pairs put so far, in commit order. */
    function Puts(): seq<Pair>
      reads this
    {
      Flatten(log)
    }

    /** `batch_write(kv_stream, batch_size)` as written. */
    method BatchWrite<K, V>(kvStream: seq<(K, V)>, batchSize: int, keyStr: K -> string, valueStr: V -> string)
      returns (r: Result<()>)
      modifies this
      ensures r.Ok? <==> BatchWriteOutcome(Stringify(kvStream, keyStr, valueStr), batchSize).Ok?
      ensures r.Err? ==> r.error == ZeroDivisionError && log == old(log)
      ensures r.Ok? ==> log == old(log) + BatchWriteOutcome(Stringify(kvStream, keyStr, valueStr), batchSize).value
      ensures r.Ok? ==> Puts() == old(Puts()) + Stringify(kvStream, keyStr, valueStr)
    {
      ghost var ps := Stringify(kvStream, keyStr, valueStr);
      ghost var log0 := log;
      var batch: Batch := [];
      var count := 0;
      while count < |kvStream|
        invariant 0 <= count <= |kvStream|
        invariant batchSize == 0 ==> count <= 1 && log == log0 && batch == ps[..count]
        invariant batchSize != 0 ==> log + [batch] == log0 + WrittenBatches(ps[..count], batchSize)
      {
        var (k, v) := kvStream[count];
        var pair := (keyStr(k), valueStr(v));
        assert ps[..count + 1] == ps[..count] + [pair];
        ghost var commit := batchSize != 0 && CommitsAfter(count, batchSize);
        assert batchSize != 0 ==> log + [batch + [pair]] + (if commit then [[]] else []) ==
                                  log0 + WrittenBatches(ps[..count + 1], batchSize) by {
          if batchSize != 0 {
            WrittenStep(ps[..count], pair, batchSize);
            PutIntoOpen(log, batch, log0, WrittenBatches(ps[..count], batchSize), pair, commit);
          }
        }
        batch := batch + [pair];
        if count != 0 {
          if batchSize == 0 {
            r := Err(ZeroDivisionError);
            return;
          }
          if count % batchSize == 0 {
            log := log + [batch];
            batch := [];
          }
        }
        count := count + 1;
      }
      log := log + [batch];
      r := Ok(());
      assert ps[..count] == ps;
      FlattenAppend(log0, BatchWriteOutcome(ps, batchSize).value);
    }

    /** `batch_write` with the commit rule the docstring describes: a batch is
        committed once it holds `batchSize` pairs. */
    method BatchWriteBySize<K, V>(kvStream: seq<(K, V)>, batchSize: nat, keyStr: K -> string, valueStr: V -> string)
      requires batchSize > 0
      modifies this
      ensures log == old(log) + Chunks(Stringify(kvStream, keyStr, valueStr), batchSize)
    {
      ghost var ps := Stringify(kvStream, keyStr, valueStr);
      var batch: Batch := [];
      var count := 0;
      while count < |kvStream|
        invariant 0 <= count <= |kvStream|
        invariant log + [batch] == old(log) + Chunks(ps[..count], batchSize)
      {
        var (k, v) := kvStream[count];
        var pair := (keyStr(k), valueStr(v));
        assert ps[..count + 1] == ps[..count] + [pair];
        ChunksSnoc(ps[..count], pair, batchSize);
        PutIntoOpen(log, batch, old(log), Chunks(ps[..count], batchSize), pair, (count + 1) % batchSize == 0);
        batch := batch + [pair];
        if (count + 1) % batchSize == 0 {
          log := log + [batch];
          batch := [];
        }
        count := count + 1;
      }
      log := log + [batch];
      assert ps[..count] == ps;
    }
  }
}
