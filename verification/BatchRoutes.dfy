/** When the ring route and the path route of a batch of writes leave the same bytes. */
module BatchRoutes {
  import opened IoTypes
  import opened FileModel
  import opened BatchTheorems
  import opened StreamRuns

  /** A batch the ring wrote in full, in the order `perm`, and the same batch by the path leave the same
      bytes exactly when there is nothing to write, or the stream writes at the end and the order makes no
      difference to the chunks joined. */
  lemma WriteBatchRoutesAgreeIff(f: File, chunks: seq<seq<byte>>, perm: seq<int>)
    requires Permutes(perm, |chunks|)
    ensures WriteSome(f, Gather(chunks, perm)).bytes == f.bytes + Joined(chunks)
            <==> Joined(chunks) == [] || (AtEnd(f) && Gather(chunks, perm) == Joined(chunks))
  {
    GatherLength(chunks, perm);
    TotalIsJoined(chunks);
    hide Permutes, Gather, Joined, Total, Overwrite;
    var ring, path := Gather(chunks, perm), Joined(chunks);
    if path == [] {
      assert ring == [] && f.bytes + path == f.bytes;
    } else if AtEnd(f) {
      WriteAtEnd(f, ring);
      SameTail(f.bytes, ring, path);
    } else {
      OverwriteLength(f.bytes, f.pos, ring);
    }
  }

  lemma SameTail(front: seq<byte>, a: seq<byte>, b: seq<byte>)
    ensures front + a == front + b <==> a == b
  {
    if front + a == front + b {
      assert a == (front + a)[|front|..] && b == (front + b)[|front|..];
    }
  }

  // --- Which batches no order can change ---

  /** Any two chunks may be swapped. */
  predicate Commute(chunks: seq<seq<byte>>) {
    forall i, j | 0 <= i < j < |chunks| :: chunks[i] + chunks[j] == chunks[j] + chunks[i]
  }

  lemma CommuteAt(chunks: seq<seq<byte>>, i: nat, j: nat)
    requires Commute(chunks) && i < |chunks| && j < |chunks|
    ensures chunks[i] + chunks[j] == chunks[j] + chunks[i]
  {
  }

  lemma PastOneMore(x: seq<byte>, a: seq<byte>, y: seq<byte>)
    requires x + a == a + x && x + y == y + x
    ensures x + (a + y) == (a + y) + x
  {
    calc {
      x + (a + y);
      (x + a) + y;
      a + (x + y);
      (a + y) + x;
    }
  }

  /** A chunk moves past any arrangement of the others. */
  lemma {:induction false} MovesPast(chunks: seq<seq<byte>>, x: nat, perm: seq<int>)
    requires Commute(chunks) && x < |chunks| && Within(perm, |chunks|)
    ensures chunks[x] + Gather(chunks, perm) == Gather(chunks, perm) + chunks[x]
  {
    hide Commute;
    if perm != [] {
      var n := |perm| - 1;
      MovesPast(chunks, x, perm[..n]);
      CommuteAt(chunks, x, perm[n]);
      PastOneMore(chunks[x], Gather(chunks, perm[..n]), chunks[perm[n]]);
    }
  }

  lemma {:induction false} CommutingGather(chunks: seq<seq<byte>>, perm: seq<int>)
    requires Commute(chunks) && Permutes(perm, |chunks|)
    ensures Gather(chunks, perm) == Joined(chunks)
    decreases |chunks|
  {
    var n := |chunks|;
    if n == 0 {
      NoneWithinNothing(perm);
    } else {
      assert Commute(chunks[..n - 1]);
      hide Commute, Gather;
      var a, b := RemoveLast(perm, n);
      hide Permutes;
      CommutingGather(chunks[..n - 1], a + b);
      PermutesWithin(a + b, n - 1);
      GatherFewer(chunks, n - 1, a + b);
      LastMovesBack(chunks, a, n - 1, b);
    }
  }

  lemma LastMovesBack(chunks: seq<seq<byte>>, a: seq<int>, x: nat, b: seq<int>)
    requires Commute(chunks) && x < |chunks| && Within(a, |chunks|) && Within(b, |chunks|)
    ensures Within(a + [x] + b, |chunks|) && Within(a + b, |chunks|)
    ensures Gather(chunks, a + [x] + b) == Gather(chunks, a + b) + chunks[x]
  {
    assert Gather(chunks, [x]) == chunks[x];
    MovesPast(chunks, x, b);
    hide Gather, Commute;
    GatherConcat(chunks, a, [x]);
    GatherConcat(chunks, a + [x], b);
    GatherConcat(chunks, a, b);
    Swap(Gather(chunks, a), chunks[x], Gather(chunks, b));
  }

  lemma Swap(p: seq<byte>, q: seq<byte>, r: seq<byte>)
    requires q + r == r + q
    ensures p + q + r == p + r + q
  {
    assert p + q + r == p + (q + r) && p + r + q == p + (r + q);
  }

  /** The `k`-th number other than `i` and `j`. */
  function OtherThan(i: nat, j: nat, k: nat): nat
    requires i < j
  {
    if k < i then k else if k + 1 < j then k + 1 else k + 2
  }

  function Others(i: nat, j: nat, n: nat): seq<int>
    requires i < j < n
  {
    seq(n - 2, k requires 0 <= k < n - 2 => OtherThan(i, j, k))
  }

  /** Any two of the numbers below `n`, in either order, can stand first. */
  lemma TwoFirst(i: nat, j: nat, n: nat, x: nat, y: nat)
    requires i < j < n && ((x == i && y == j) || (x == j && y == i))
    ensures Permutes([x, y] + Others(i, j, n), n)
  {
    var perm := [x, y] + Others(i, j, n);
    forall v | 0 <= v < n
      ensures v in perm
    {
      if v != x && v != y {
        var k := if v < i then v else if v < j then v - 1 else v - 2;
        assert perm[k + 2] == v;
      } else {
        assert perm[0] == x && perm[1] == y;
      }
    }
  }

  lemma OrderMatters(chunks: seq<seq<byte>>, i: nat, j: nat)
    requires i < j < |chunks|
    requires OrderIsImmaterial(chunks)
    ensures chunks[i] + chunks[j] == chunks[j] + chunks[i]
  {
    var rest := Others(i, j, |chunks|);
    TwoFirst(i, j, |chunks|, i, j);
    TwoFirst(i, j, |chunks|, j, i);
    var p, q := [i, j] + rest, [j, i] + rest;
    TwoGathered(chunks, i, j, rest);
    TwoGathered(chunks, j, i, rest);
    hide Permutes, Gather, Joined;
    var tail := Gather(chunks, rest);
    assert Gather(chunks, p) == Gather(chunks, q);
    assert chunks[i] + chunks[j] == (chunks[i] + chunks[j] + tail)[..|chunks[i]| + |chunks[j]|];
    assert chunks[j] + chunks[i] == (chunks[j] + chunks[i] + tail)[..|chunks[i]| + |chunks[j]|];
  }

  lemma RestWithin(x: int, y: int, rest: seq<int>, n: nat)
    requires Within([x, y] + rest, n)
    ensures Within(rest, n)
  {
    forall k | 0 <= k < |rest|
      ensures 0 <= rest[k] < n
    {
      assert rest[k] == ([x, y] + rest)[k + 2];
    }
  }

  lemma FirstTwo(chunks: seq<seq<byte>>, x: nat, y: nat)
    requires x < |chunks| && y < |chunks|
    ensures Within([x, y], |chunks|) && Gather(chunks, [x, y]) == chunks[x] + chunks[y]
  {
    NothingGathered(chunks, 0);
    hide Gather, Within;
    GatherOneMore(chunks, [], x);
    assert [] + [x] == [x] && [] + chunks[x] == chunks[x];
    GatherOneMore(chunks, [x], y);
    assert [x] + [y] == [x, y];
  }

  lemma TwoGathered(chunks: seq<seq<byte>>, x: nat, y: nat, rest: seq<int>)
    requires x < |chunks| && y < |chunks| && Within([x, y] + rest, |chunks|)
    ensures Within(rest, |chunks|)
    ensures Gather(chunks, [x, y] + rest) == chunks[x] + chunks[y] + Gather(chunks, rest)
  {
    hide Gather, Within;
    RestWithin(x, y, rest, |chunks|);
    FirstTwo(chunks, x, y);
    GatherConcat(chunks, [x, y], rest);
  }

  /** Whatever the order, the chunks join up to the same. */
  ghost predicate OrderIsImmaterial(chunks: seq<seq<byte>>) {
    forall perm | Permutes(perm, |chunks|) :: Gather(chunks, perm) == Joined(chunks)
  }

  /** No order of execution changes what a batch written in full adds up to exactly when any two of its
      chunks may be swapped. */
  lemma {:induction false} OrderIsImmaterialIff(chunks: seq<seq<byte>>)
    ensures OrderIsImmaterial(chunks) <==> Commute(chunks)
  {
    hide Distinct, Within, Gather, Joined;
    if Commute(chunks) {
      forall perm | Permutes(perm, |chunks|)
        ensures Gather(chunks, perm) == Joined(chunks)
      {
        CommutingGather(chunks, perm);
      }
    }
    hide Permutes;
    if OrderIsImmaterial(chunks) {
      forall i, j | 0 <= i < j < |chunks|
        ensures chunks[i] + chunks[j] == chunks[j] + chunks[i]
      {
        OrderMatters(chunks, i, j);
      }
    }
  }

  /** So a caller can be sure before the call that the two routes of a batch leave the same bytes, whatever
      order the kernel takes, exactly when there is nothing to write, or the stream writes at the end and
      any two of the chunks may be swapped. */
  lemma {:induction false} WriteBatchRoutesAlwaysAgreeIff(f: File, chunks: seq<seq<byte>>)
    ensures (forall perm | Permutes(perm, |chunks|) ::
               WriteSome(f, Gather(chunks, perm)).bytes == f.bytes + Joined(chunks))
            <==> Joined(chunks) == [] || (AtEnd(f) && Commute(chunks))
  {
    OrderIsImmaterialIff(chunks);
    IotaPermutes(|chunks|);
    hide Distinct, Within, Gather, Joined, Commute, WriteSome, AtEnd;
    forall perm | Permutes(perm, |chunks|)
      ensures WriteSome(f, Gather(chunks, perm)).bytes == f.bytes + Joined(chunks)
              <==> Joined(chunks) == [] || (AtEnd(f) && Gather(chunks, perm) == Joined(chunks))
    {
      WriteBatchRoutesAgreeIff(f, chunks, perm);
    }
  }

  lemma IotaPermutes(n: nat)
    ensures Permutes(Iota(n), n)
  {
    forall i | 0 <= i < n
      ensures i in Iota(n)
    {
      assert Iota(n)[i] == i;
    }
  }

  /** Two chunks that cannot be swapped, on an empty file opened for appending: the kernel runs the second
      first, and the ring leaves [2, 1] where the path leaves [1, 2]. */
  lemma WriteBatchRoutesDisagree()
    ensures var f, chunks := File(3, [], 0, true, false, true), [[1], [2]];
            && SomeOrder([2, 1], chunks, [1, 1], [1, 0])
            && WriteSome(f, [2, 1]).bytes == [2, 1] && f.bytes + Joined(chunks) == [1, 2]
  {
    var chunks: seq<seq<byte>>, counts: seq<int> := [[1], [2]], [1, 1];
    TwoFirst(0, 1, 2, 1, 0);
    assert [1, 0] + Others(0, 1, 2) == [1, 0];
    FirstTwo(chunks, 1, 0);
    TwoJoined([1], [2]);
    TwoSummed(1, 1);
    hide Permutes, Gather, Joined, Sum;
    assert chunks[0][..counts[0]] == [1] && chunks[1][..counts[1]] == [2];
    assert Prefixes(chunks, counts) == chunks;
  }

  lemma TwoJoined(a: seq<byte>, b: seq<byte>)
    ensures Joined([a, b]) == a + b
  {
    assert [a, b][..1] == [a] && [a][..0] == [];
    assert Joined([a]) == a;
  }

  lemma TwoSummed(a: int, b: int)
    ensures Sum([a, b]) == a + b
  {
    assert [a, b][..1] == [a] && [a][..0] == [];
    assert Sum([a]) == a;
  }
}
