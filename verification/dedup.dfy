/** Duplicate removal by institution key and the batched upsert tally of
    lib/fetchData.ts (`removeDuplicateYkiho`, `bulkUpsertHospitals`). */
module Dedup {
  import opened Records
  import Seqs

  /** Position `i` holds the last record with its key, and the key is not
      empty: exactly the records `removeDuplicateYkiho` keeps. */
  predicate IsLastOfKey(xs: seq<HospitalRow>, i: nat) {
    i < |xs| && xs[i].ykiho != ""
    && forall j :: i < j < |xs| ==> xs[j].ykiho != xs[i].ykiho
  }

  /** The reference definition: the last record of every non-empty key, in
      input order. */
  function Dedup(xs: seq<HospitalRow>): (r: seq<HospitalRow>)
    ensures |r| <= |xs|
  {
    if xs == [] then []
    else if IsLastOfKey(xs, 0) then [xs[0]] + Dedup(xs[1..])
    else Dedup(xs[1..])
  }

  /** The non-empty keys occurring in `xs`. */
  function Keys(xs: seq<HospitalRow>): set<string> {
    set i | 0 <= i < |xs| && xs[i].ykiho != "" :: xs[i].ykiho
  }

  lemma IsLastOfKeyHead(xs: seq<HospitalRow>)
    requires xs != []
    ensures IsLastOfKey(xs, 0) <==> xs[0].ykiho != "" && xs[0].ykiho !in Keys(xs[1..])
  {
    if xs[0].ykiho != "" && !IsLastOfKey(xs, 0) {
      var j :| 0 < j < |xs| && xs[j].ykiho == xs[0].ykiho;
      assert xs[1..][j - 1].ykiho == xs[0].ykiho;
    }
  }

  // ---------------------------------------------------------------------
  // Properties of the reference definition
  // ---------------------------------------------------------------------

  lemma KeysCons(x: HospitalRow, xs: seq<HospitalRow>)
    ensures Keys([x] + xs) == (if x.ykiho != "" then {x.ykiho} else {}) + Keys(xs)
  {
    var ys := [x] + xs;
    forall k | k in Keys(ys) && k != x.ykiho ensures k in Keys(xs) {
      var i :| 0 <= i < |ys| && ys[i].ykiho != "" && ys[i].ykiho == k;
      assert xs[i - 1] == ys[i];
    }
    forall k | k in Keys(xs) ensures k in Keys(ys) {
      var i :| 0 <= i < |xs| && xs[i].ykiho != "" && xs[i].ykiho == k;
      assert ys[i + 1] == xs[i];
    }
    if x.ykiho != "" {
      assert ys[0] == x;
    }
  }

  /** The output holds each non-empty key of the input exactly once. */
  lemma {:induction false} DedupKeys(xs: seq<HospitalRow>)
    ensures Keys(Dedup(xs)) == Keys(xs)
    ensures forall i :: 0 <= i < |Dedup(xs)| ==> Dedup(xs)[i].ykiho != ""
    ensures forall i, j :: 0 <= i < j < |Dedup(xs)| ==> Dedup(xs)[i].ykiho != Dedup(xs)[j].ykiho
  {
    if xs != [] {
      DedupKeys(xs[1..]);
      var rest := Dedup(xs[1..]);
      IsLastOfKeyHead(xs);
      KeysCons(xs[0], xs[1..]);
      assert xs == [xs[0]] + xs[1..];
      if IsLastOfKey(xs, 0) {
        var r := [xs[0]] + rest;
        assert Dedup(xs) == r;
        forall i | 0 < i < |r| ensures r[i].ykiho != r[0].ykiho {
          assert r[i] == rest[i - 1];
          assert r[i].ykiho in Keys(rest);
        }
        KeysCons(xs[0], rest);
      } else {
        assert Dedup(xs) == rest;
      }
    }
  }

  /** Every kept record is the last occurrence of its key in the input. */
  lemma {:induction false} DedupKeepsLast(xs: seq<HospitalRow>, i: nat)
    requires i < |Dedup(xs)|
    ensures exists j: nat :: IsLastOfKey(xs, j) && xs[j] == Dedup(xs)[i]
  {
    if IsLastOfKey(xs, 0) && i == 0 {
      assert IsLastOfKey(xs, 0) && xs[0] == Dedup(xs)[0];
    } else {
      var k: nat := if IsLastOfKey(xs, 0) then i - 1 else i;
      assert Dedup(xs)[i] == Dedup(xs[1..])[k];
      DedupKeepsLast(xs[1..], k);
      var j: nat :| IsLastOfKey(xs[1..], j) && xs[1..][j] == Dedup(xs[1..])[k];
      assert IsLastOfKey(xs, j + 1) by {
        forall m | j + 1 < m < |xs| ensures xs[m].ykiho != xs[j + 1].ykiho {
          assert xs[m] == xs[1..][m - 1];
        }
      }
    }
  }

  /** Every last occurrence of a key is kept. */
  lemma {:induction false} DedupKeepsEveryLast(xs: seq<HospitalRow>, j: nat)
    requires IsLastOfKey(xs, j)
    ensures xs[j] in Dedup(xs)
  {
    if j > 0 {
      assert IsLastOfKey(xs[1..], j - 1) by {
        forall m | j - 1 < m < |xs[1..]| ensures xs[1..][m].ykiho != xs[1..][j - 1].ykiho {
          assert xs[1..][m] == xs[m + 1];
        }
      }
      DedupKeepsEveryLast(xs[1..], j - 1);
    }
  }

  /** The output is a subsequence of the input, so input order is kept. */
  lemma {:induction false} DedupIsSubsequence(xs: seq<HospitalRow>)
    ensures Seqs.IsSubsequence(Dedup(xs), xs)
  {
    if xs != [] {
      DedupIsSubsequence(xs[1..]);
      if IsLastOfKey(xs, 0) {
        assert Dedup(xs)[1..] == Dedup(xs[1..]);
      } else {
        Seqs.SubsequenceOfTail(Dedup(xs), xs);
      }
    }
  }

  /** Keys that are all distinct and non-empty. */
  predicate DistinctKeys(xs: seq<HospitalRow>) {
    && (forall i :: 0 <= i < |xs| ==> xs[i].ykiho != "")
    && (forall i, j :: 0 <= i < j < |xs| ==> xs[i].ykiho != xs[j].ykiho)
  }

  /** A list whose keys are distinct and non-empty comes back unchanged. */
  lemma {:induction false} DedupOfDistinct(xs: seq<HospitalRow>)
    requires DistinctKeys(xs)
    ensures Dedup(xs) == xs
  {
    if xs != [] {
      assert IsLastOfKey(xs, 0);
      assert DistinctKeys(xs[1..]) by {
        forall i, j | 0 <= i < j < |xs[1..]| ensures xs[1..][i].ykiho != xs[1..][j].ykiho {
          assert xs[1..][i] == xs[i + 1] && xs[1..][j] == xs[j + 1];
        }
      }
      DedupOfDistinct(xs[1..]);
      assert xs == [xs[0]] + xs[1..];
    }
  }

  /** Dedup is idempotent. */
  lemma DedupIdempotent(xs: seq<HospitalRow>)
    ensures Dedup(Dedup(xs)) == Dedup(xs)
  {
    DedupKeys(xs);
    DedupOfDistinct(Dedup(xs));
  }

  /** A slice of a deduplicated list is its own dedup: the per-batch
      safeguard in `bulkUpsertHospitals` never removes anything. */
  lemma DedupOfSlice(xs: seq<HospitalRow>, lo: nat, hi: nat)
    requires lo <= hi <= |Dedup(xs)|
    ensures Dedup(Dedup(xs)[lo..hi]) == Dedup(xs)[lo..hi]
  {
    var d := Dedup(xs);
    DedupKeys(xs);
    var s := d[lo..hi];
    assert DistinctKeys(s) by {
      forall i, j | 0 <= i < j < |s| ensures s[i].ykiho != s[j].ykiho {
        assert s[i] == d[lo + i] && s[j] == d[lo + j];
      }
      forall i | 0 <= i < |s| ensures s[i].ykiho != "" {
        assert s[i] == d[lo + i];
      }
    }
    DedupOfDistinct(s);
  }

  // ---------------------------------------------------------------------
  // removeDuplicateYkiho as written
  // ---------------------------------------------------------------------

  /** `removeDuplicateYkiho`: walks the input backwards, keeps a record when
      its key is non-empty and not yet seen (the Map's insertion order), and
      reverses the collected values at the end. */
  method RemoveDuplicateYkiho(xs: seq<HospitalRow>) returns (r: seq<HospitalRow>)
    ensures r == Dedup(xs)
  {
    var seen: set<string> := {};
    var values: seq<HospitalRow> := [];
    var i := |xs|;
    while i > 0
      invariant 0 <= i <= |xs|
      invariant seen == Keys(xs[i..])
      invariant values == Seqs.Reverse(Dedup(xs[i..]))
    {
      i := i - 1;
      var hospital := xs[i];
      assert xs[i..][1..] == xs[i + 1..];
      IsLastOfKeyHead(xs[i..]);
      if hospital.ykiho != "" && hospital.ykiho !in seen {
        seen := seen + {hospital.ykiho};
        values := values + [hospital];
        Seqs.ReverseSnoc(Dedup(xs[i + 1..]), hospital);
      }
    }
    assert xs[0..] == xs;
    r := Seqs.Reverse(values);
    Seqs.ReverseReverse(Dedup(xs));
  }

  // ---------------------------------------------------------------------
  // bulkUpsertHospitals
  // ---------------------------------------------------------------------

  /** The tally `bulkUpsertHospitals` returns. */
  datatype Tally = Tally(success: nat, failed: nat)

  /** `bulkUpsertHospitals` with the database reply as the oracle `upsertOk`
      (true when batch number `b` is stored without error or exception).
      Batches are consecutive slices of the deduplicated list; each adds its
      whole size to exactly one of the two counters. */
  method BulkUpsertHospitals(xs: seq<HospitalRow>, batchSize: nat, upsertOk: nat -> bool)
    returns (tally: Tally, batches: seq<seq<HospitalRow>>)
    requires batchSize > 0 || Dedup(xs) == []
    ensures Seqs.AreBatchesOf(batches, Dedup(xs), batchSize)
    ensures tally.success + tally.failed == |Dedup(xs)|
    ensures tally.success == SizeOfOk(batches, upsertOk)
  {
    var unique := RemoveDuplicateYkiho(xs);
    var success: nat, failed: nat := 0, 0;
    batches := [];
    var i := 0;
    while i < |unique|
      invariant 0 <= i <= |unique|
      invariant Seqs.Flatten(batches) == unique[..i]
      invariant forall b :: 0 <= b < |batches| ==> 0 < |batches[b]| <= batchSize
      invariant forall b :: 0 <= b < |batches| - 1 ==> |batches[b]| == batchSize
      invariant i < |unique| ==> forall b :: 0 <= b < |batches| ==> |batches[b]| == batchSize
      invariant success + failed == i
      invariant success == SizeOfOk(batches, upsertOk)
      decreases |unique| - i
    {
      var hi := if i + batchSize <= |unique| then i + batchSize else |unique|;
      var batch := unique[i..hi];
      var batchUnique := RemoveDuplicateYkiho(batch);
      DedupOfSlice(xs, i, hi);
      if upsertOk(|batches|) {
        success := success + |batchUnique|;
      } else {
        failed := failed + |batchUnique|;
      }
      Seqs.FlattenSnoc(batches, batch);
      assert unique[..i] + batch == unique[..hi];
      SizeOfOkSnoc(batches, batch, upsertOk);
      batches := batches + [batch];
      i := hi;
    }
    assert unique[..i] == unique;
    tally := Tally(success, failed);
  }

  /** The number of records in the batches the oracle accepts. */
  function SizeOfOk<T(==)>(batches: seq<seq<T>>, upsertOk: nat -> bool): nat {
    if batches == [] then 0
    else
      var b := |batches| - 1;
      SizeOfOk(batches[..b], upsertOk) + (if upsertOk(b) then |batches[b]| else 0)
  }

  lemma SizeOfOkSnoc<T>(batches: seq<seq<T>>, batch: seq<T>, upsertOk: nat -> bool)
    ensures SizeOfOk(batches + [batch], upsertOk)
      == SizeOfOk(batches, upsertOk) + (if upsertOk(|batches|) then |batch| else 0)
  {
    assert (batches + [batch])[..|batches|] == batches;
  }
}
