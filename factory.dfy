/** _EMAILfactory: sends a message to its distribution. A distribution with
    more than BREAKDOWNDISTRIBUTION addresses in a role is cut into chunks of
    that size and each chunk is sent on its own, recursively, so that every
    message that goes out has at most that many addresses per role. Each such
    batch drops the CC and BCC addresses the message's ledger already holds,
    is sent once, and, when the transport reports refused addresses, once more
    without them; afterwards the ledger records every recipient left on the
    message and any error text. The thread pool is modelled as running the
    batches one after another, in the order they are submitted. */
module Dispatch {
  import opened Common
  import opened SendLedger
  import D = Distributions
  import opened Messages
  import T = Templates
  import M = Mime

  const BREAKDOWNDISTRIBUTION: nat := 200

  /** The three address arrays one call of the private sendEmailMessage gets; TO is never null there. */
  datatype Batch = Batch(to: seq<string>, cc: Option<seq<string>>, bcc: Option<seq<string>>)

  predicate Oversized(s: seq<string>)
  {
    |s| > BREAKDOWNDISTRIBUTION
  }

  predicate RoleOversized(b: Batch, r: D.Role)
  {
    match r
    case TO => Oversized(b.to)
    case CC => b.cc.Some? && Oversized(b.cc.value)
    case BCC => b.bcc.Some? && Oversized(b.bcc.value)
  }

  /** The number of roles that still have to be cut. */
  function Over(b: Batch): nat
  {
    (if RoleOversized(b, D.TO) then 1 else 0) + (if RoleOversized(b, D.CC) then 1 else 0)
      + (if RoleOversized(b, D.BCC) then 1 else 0)
  }

  /** The test in front of the submission: every role within the limit (CC and BCC may be null). */
  predicate IsLeaf(b: Batch)
  {
    |b.to| <= BREAKDOWNDISTRIBUTION
      && (b.cc.None? || |b.cc.value| <= BREAKDOWNDISTRIBUTION)
      && (b.bcc.None? || |b.bcc.value| <= BREAKDOWNDISTRIBUTION)
  }

  function RoleSeq(b: Batch, r: D.Role): seq<string>
    requires RoleOversized(b, r)
  {
    match r
    case TO => b.to
    case CC => b.cc.value
    case BCC => b.bcc.value
  }

  /** The batch with one role's array replaced by a chunk of it. */
  function WithRole(b: Batch, r: D.Role, c: seq<string>): Batch
  {
    match r
    case TO => b.(to := c)
    case CC => b.(cc := Some(c))
    case BCC => b.(bcc := Some(c))
  }

  /** The chunks the copy loop cuts from `index` on: full chunks while at least a full chunk is left,
      then whatever is left, which is empty when the length is a multiple of the chunk size. */
  function ChunksFrom(s: seq<string>, index: nat): (cs: seq<seq<string>>)
    requires index <= |s|
    ensures |cs| >= 1
    ensures forall k :: 0 <= k < |cs| ==> |cs[k]| <= BREAKDOWNDISTRIBUTION
    decreases |s| - index
  {
    if |s| - index < BREAKDOWNDISTRIBUTION then [s[index..]]
    else [s[index..index + BREAKDOWNDISTRIBUTION]] + ChunksFrom(s, index + BREAKDOWNDISTRIBUTION)
  }

  function Chunks(s: seq<string>): seq<seq<string>>
  {
    ChunksFrom(s, 0)
  }

  function Concat<T>(cs: seq<seq<T>>): seq<T>
  {
    if cs == [] then [] else cs[0] + Concat(cs[1..])
  }

  lemma OverDecreases(b: Batch, r: D.Role, c: seq<string>)
    requires RoleOversized(b, r) && |c| <= BREAKDOWNDISTRIBUTION
    ensures Over(WithRole(b, r, c)) < Over(b)
  {
  }

  /** The batches the recursion submits, in submission order: those of each TO chunk, then those of
      each CC chunk, then those of each BCC chunk, then the batch itself if it is within the limit. */
  function Batches(b: Batch): seq<Batch>
    decreases Over(b), 1
  {
    (if RoleOversized(b, D.TO) then ForEachChunk(b, D.TO, Chunks(b.to)) else [])
      + (if RoleOversized(b, D.CC) then ForEachChunk(b, D.CC, Chunks(b.cc.value)) else [])
      + (if RoleOversized(b, D.BCC) then ForEachChunk(b, D.BCC, Chunks(b.bcc.value)) else [])
      + (if IsLeaf(b) then [b] else [])
  }

  /** The recursive calls of one copy loop, one per chunk. */
  function ForEachChunk(b: Batch, r: D.Role, chunks: seq<seq<string>>): seq<Batch>
    requires RoleOversized(b, r)
    requires forall k :: 0 <= k < |chunks| ==> |chunks[k]| <= BREAKDOWNDISTRIBUTION
    decreases Over(b), 0, |chunks|
  {
    if chunks == [] then []
    else
      OverDecreases(b, r, chunks[0]);
      Batches(WithRole(b, r, chunks[0])) + ForEachChunk(b, r, chunks[1..])
  }

  // ---------------------------------------------------------------------------
  // The recursion, as the source's loops

  /** The private sendEmailMessage, collecting the batches it submits. */
  method Split(b: Batch) returns (out: seq<Batch>)
    ensures out == Batches(b)
    decreases Over(b), 2
  {
    ghost var toPart := if RoleOversized(b, D.TO) then ForEachChunk(b, D.TO, Chunks(b.to)) else [];
    ghost var ccPart := if RoleOversized(b, D.CC) then ForEachChunk(b, D.CC, Chunks(b.cc.value)) else [];
    ghost var bccPart := if RoleOversized(b, D.BCC) then ForEachChunk(b, D.BCC, Chunks(b.bcc.value)) else [];
    assert Batches(b) == toPart + ccPart + bccPart + (if IsLeaf(b) then [b] else []);
    out := [];
    if |b.to| > BREAKDOWNDISTRIBUTION {
      var part := SplitRole(b, D.TO);
      out := out + part;
    }
    assert out == toPart;
    if b.cc.Some? && |b.cc.value| > BREAKDOWNDISTRIBUTION {
      var part := SplitRole(b, D.CC);
      out := out + part;
    }
    assert out == toPart + ccPart;
    if b.bcc.Some? && |b.bcc.value| > BREAKDOWNDISTRIBUTION {
      var part := SplitRole(b, D.BCC);
      out := out + part;
    }
    assert out == toPart + ccPart + bccPart;
    if |b.to| <= BREAKDOWNDISTRIBUTION
      && (b.cc.None? || |b.cc.value| <= BREAKDOWNDISTRIBUTION)
      && (b.bcc.None? || |b.bcc.value| <= BREAKDOWNDISTRIBUTION)
    {
      out := out + [b];
    }
  }

  /** One copy loop: `index` moves by the chunk size while `num` stays at it. */
  method SplitRole(b: Batch, r: D.Role) returns (out: seq<Batch>)
    requires RoleOversized(b, r)
    ensures out == ForEachChunk(b, r, Chunks(RoleSeq(b, r)))
    decreases Over(b), 1
  {
    var s := RoleSeq(b, r);
    var index := 0;
    var num := BREAKDOWNDISTRIBUTION;
    out := [];
    // the batches of the chunks the loop has still to copy
    ghost var pending := ForEachChunk(b, r, ChunksFrom(s, 0));
    while num == BREAKDOWNDISTRIBUTION
      invariant num == BREAKDOWNDISTRIBUTION ==> index <= |s| && pending == ForEachChunk(b, r, ChunksFrom(s, index))
      invariant num != BREAKDOWNDISTRIBUTION ==> pending == []
      invariant out + pending == ForEachChunk(b, r, Chunks(RoleSeq(b, r)))
      decreases if num == BREAKDOWNDISTRIBUTION then 1 else 0, |s| - index
    {
      if |s| - index < BREAKDOWNDISTRIBUTION {
        num := |s| - index;
      }
      ghost var next := ChunkStep(b, r, s, index, num);
      var sub := SplitChunk(b, r, s[index..index + num]);
      assert pending == sub + next;
      assert (out + sub) + next == out + pending;
      out := out + sub;
      pending := next;
      index := index + BREAKDOWNDISTRIBUTION;
    }
  }

  /** The copy of the batch with one chunk in place of the oversized role, split in turn. */
  method SplitChunk(b: Batch, r: D.Role, chunk: seq<string>) returns (sub: seq<Batch>)
    requires RoleOversized(b, r) && |chunk| <= BREAKDOWNDISTRIBUTION
    ensures sub == Batches(WithRole(b, r, chunk))
    decreases Over(b), 0
  {
    OverDecreases(b, r, chunk);
    sub := Split(WithRole(b, r, chunk));
  }

  /** One turn of the copy loop: the chunk at `index`, then the chunks after it if it was a full one. */
  lemma ChunkStep(b: Batch, r: D.Role, s: seq<string>, index: nat, num: nat) returns (next: seq<Batch>)
    requires RoleOversized(b, r) && index <= |s|
    requires num == if |s| - index < BREAKDOWNDISTRIBUTION then |s| - index else BREAKDOWNDISTRIBUTION
    ensures index + num <= |s|
    ensures ForEachChunk(b, r, ChunksFrom(s, index)) == Batches(WithRole(b, r, s[index..index + num])) + next
    ensures num == BREAKDOWNDISTRIBUTION ==> next == ForEachChunk(b, r, ChunksFrom(s, index + BREAKDOWNDISTRIBUTION))
    ensures num != BREAKDOWNDISTRIBUTION ==> next == []
  {
    next := if |s| - index >= BREAKDOWNDISTRIBUTION then ForEachChunk(b, r, ChunksFrom(s, index + BREAKDOWNDISTRIBUTION)) else [];
    var cs := ChunksFrom(s, index);
    assert ForEachChunk(b, r, cs) == Batches(WithRole(b, r, cs[0])) + ForEachChunk(b, r, cs[1..]);
    if |s| - index >= BREAKDOWNDISTRIBUTION {
      assert cs[1..] == ChunksFrom(s, index + BREAKDOWNDISTRIBUTION);
    } else {
      assert cs[1..] == [];
      assert ForEachChunk(b, r, cs[1..]) == [];
      assert s[index..index + (|s| - index)] == s[index..];
    }
  }

  // ---------------------------------------------------------------------------
  // What the recursion submits

  /** The chunks of a sequence: one more than the number of full chunks. */
  lemma {:induction false} ChunkCount(s: seq<string>, index: nat)
    requires index <= |s|
    ensures |ChunksFrom(s, index)| == (|s| - index) / BREAKDOWNDISTRIBUTION + 1
    decreases |s| - index
  {
    if |s| - index >= BREAKDOWNDISTRIBUTION {
      ChunkCount(s, index + BREAKDOWNDISTRIBUTION);
      assert (|s| - index) / BREAKDOWNDISTRIBUTION == (|s| - index - BREAKDOWNDISTRIBUTION) / BREAKDOWNDISTRIBUTION + 1;
    }
  }

  /** The k-th chunk before the last holds the k-th full run of consecutive addresses. */
  lemma {:induction false} ChunkAt(s: seq<string>, index: nat, k: nat)
    requires index <= |s| && k < |ChunksFrom(s, index)| - 1
    ensures index + BREAKDOWNDISTRIBUTION * k + BREAKDOWNDISTRIBUTION <= |s|
    ensures ChunksFrom(s, index)[k] == s[index + BREAKDOWNDISTRIBUTION * k..index + BREAKDOWNDISTRIBUTION * k + BREAKDOWNDISTRIBUTION]
    decreases k
  {
    var next := index + BREAKDOWNDISTRIBUTION;
    assert |s| - index >= BREAKDOWNDISTRIBUTION;
    if k > 0 {
      assert ChunksFrom(s, index)[k] == ChunksFrom(s, next)[k - 1];
      ChunkAt(s, next, k - 1);
      assert next + BREAKDOWNDISTRIBUTION * (k - 1) == index + BREAKDOWNDISTRIBUTION * k;
    }
  }

  /** The last chunk holds what is left after the full ones. */
  lemma {:induction false} ChunkLast(s: seq<string>, index: nat)
    requires index <= |s|
    ensures ChunksFrom(s, index)[|ChunksFrom(s, index)| - 1]
      == s[index + BREAKDOWNDISTRIBUTION * ((|s| - index) / BREAKDOWNDISTRIBUTION)..]
    decreases |s| - index
  {
    if |s| - index >= BREAKDOWNDISTRIBUTION {
      var next := index + BREAKDOWNDISTRIBUTION;
      ChunkLast(s, next);
      assert (|s| - index) / BREAKDOWNDISTRIBUTION == (|s| - next) / BREAKDOWNDISTRIBUTION + 1;
      assert next + BREAKDOWNDISTRIBUTION * ((|s| - next) / BREAKDOWNDISTRIBUTION)
        == index + BREAKDOWNDISTRIBUTION * ((|s| - index) / BREAKDOWNDISTRIBUTION);
    }
  }

  /** The chunks put back together are exactly the addresses, in order. */
  lemma {:induction false} ChunkConcat(s: seq<string>, index: nat)
    requires index <= |s|
    ensures Concat(ChunksFrom(s, index)) == s[index..]
    decreases |s| - index
  {
    var cs := ChunksFrom(s, index);
    if |s| - index < BREAKDOWNDISTRIBUTION {
      assert Concat(cs) == s[index..] + Concat([]);
    } else {
      var next := index + BREAKDOWNDISTRIBUTION;
      ChunkConcat(s, next);
      assert cs[1..] == ChunksFrom(s, next);
      assert Concat(cs) == s[index..next] + Concat(ChunksFrom(s, next));
      assert s[index..] == s[index..next] + s[next..];
    }
  }

  /** A length that is a multiple of the chunk size ends in an empty chunk. */
  lemma ChunksEndEmpty(s: seq<string>)
    requires Oversized(s) && |s| % BREAKDOWNDISTRIBUTION == 0
    ensures |Chunks(s)| == |s| / BREAKDOWNDISTRIBUTION + 1
    ensures Chunks(s)[|Chunks(s)| - 1] == []
  {
    ChunkCount(s, 0);
    ChunkLast(s, 0);
  }

  /** A batch already within the limit is submitted as it is, once. */
  lemma SmallBatchSentWhole(b: Batch)
    requires IsLeaf(b)
    ensures Batches(b) == [b]
  {
  }

  /** Every submitted batch is within the limit in every role. */
  lemma {:induction false} BatchesAreLeaves(b: Batch)
    ensures forall k :: 0 <= k < |Batches(b)| ==> IsLeaf(Batches(b)[k])
    decreases Over(b), 1
  {
    if RoleOversized(b, D.TO) {
      ForEachChunkAreLeaves(b, D.TO, Chunks(b.to));
    }
    if RoleOversized(b, D.CC) {
      ForEachChunkAreLeaves(b, D.CC, Chunks(b.cc.value));
    }
    if RoleOversized(b, D.BCC) {
      ForEachChunkAreLeaves(b, D.BCC, Chunks(b.bcc.value));
    }
  }

  lemma {:induction false} ForEachChunkAreLeaves(b: Batch, r: D.Role, chunks: seq<seq<string>>)
    requires RoleOversized(b, r)
    requires forall k :: 0 <= k < |chunks| ==> |chunks[k]| <= BREAKDOWNDISTRIBUTION
    ensures forall k :: 0 <= k < |ForEachChunk(b, r, chunks)| ==> IsLeaf(ForEachChunk(b, r, chunks)[k])
    decreases Over(b), 0, |chunks|
  {
    if chunks != [] {
      OverDecreases(b, r, chunks[0]);
      BatchesAreLeaves(WithRole(b, r, chunks[0]));
      ForEachChunkAreLeaves(b, r, chunks[1..]);
    }
  }

  /** A role within the limit is passed to every submitted batch unchanged; every call submits something. */
  lemma {:induction false} BatchesKeepSmallRoles(b: Batch)
    ensures |Batches(b)| > 0
    ensures !RoleOversized(b, D.TO) ==> forall k :: 0 <= k < |Batches(b)| ==> Batches(b)[k].to == b.to
    ensures !RoleOversized(b, D.CC) ==> forall k :: 0 <= k < |Batches(b)| ==> Batches(b)[k].cc == b.cc
    ensures !RoleOversized(b, D.BCC) ==> forall k :: 0 <= k < |Batches(b)| ==> Batches(b)[k].bcc == b.bcc
    decreases Over(b), 1
  {
    if RoleOversized(b, D.TO) {
      ChunksKeep(b, D.TO, Chunks(b.to));
    }
    if RoleOversized(b, D.CC) {
      ChunksKeep(b, D.CC, Chunks(b.cc.value));
    }
    if RoleOversized(b, D.BCC) {
      ChunksKeep(b, D.BCC, Chunks(b.bcc.value));
    }
  }

  lemma {:induction false} ChunksKeep(b: Batch, r: D.Role, chunks: seq<seq<string>>)
    requires RoleOversized(b, r)
    requires forall k :: 0 <= k < |chunks| ==> |chunks[k]| <= BREAKDOWNDISTRIBUTION
    ensures |chunks| > 0 ==> |ForEachChunk(b, r, chunks)| > 0
    ensures r != D.TO && !RoleOversized(b, D.TO) ==>
      forall k :: 0 <= k < |ForEachChunk(b, r, chunks)| ==> ForEachChunk(b, r, chunks)[k].to == b.to
    ensures r != D.CC && !RoleOversized(b, D.CC) ==>
      forall k :: 0 <= k < |ForEachChunk(b, r, chunks)| ==> ForEachChunk(b, r, chunks)[k].cc == b.cc
    ensures r != D.BCC && !RoleOversized(b, D.BCC) ==>
      forall k :: 0 <= k < |ForEachChunk(b, r, chunks)| ==> ForEachChunk(b, r, chunks)[k].bcc == b.bcc
    decreases Over(b), 0, |chunks|
  {
    if chunks != [] {
      OverDecreases(b, r, chunks[0]);
      BatchesKeepSmallRoles(WithRole(b, r, chunks[0]));
      ChunksKeep(b, r, chunks[1..]);
    }
  }

  /** Only TO is too long: one batch per TO chunk, in order, each with the original CC and BCC. */
  lemma OnlyToSplit(b: Batch)
    requires Oversized(b.to) && !RoleOversized(b, D.CC) && !RoleOversized(b, D.BCC)
    ensures |Batches(b)| == |Chunks(b.to)| == |b.to| / BREAKDOWNDISTRIBUTION + 1
    ensures forall k :: 0 <= k < |Batches(b)| ==> Batches(b)[k] == Batch(Chunks(b.to)[k], b.cc, b.bcc)
    ensures |b.to| % BREAKDOWNDISTRIBUTION == 0 ==> Batches(b)[|Batches(b)| - 1].to == []
  {
    OnlyToShape(b);
    if |b.to| % BREAKDOWNDISTRIBUTION == 0 {
      ChunksEndEmpty(b.to);
      LastToEmpty(Batches(b), Chunks(b.to), b.cc, b.bcc);
    }
  }

  /** Only TO is too long: the batches are the TO chunks, each with the original CC and BCC. */
  lemma OnlyToShape(b: Batch)
    requires Oversized(b.to) && !RoleOversized(b, D.CC) && !RoleOversized(b, D.BCC)
    ensures |Batches(b)| == |Chunks(b.to)| == |b.to| / BREAKDOWNDISTRIBUTION + 1
    ensures forall k :: 0 <= k < |Batches(b)| ==> Batches(b)[k] == Batch(Chunks(b.to)[k], b.cc, b.bcc)
  {
    OnlyToBatches(b);
    ChunkCount(b.to, 0);
    OneRoleSplit(b, D.TO, Chunks(b.to));
  }

  /** Batches that take their TO lists from the chunks end with an empty TO list when the chunks do. */
  lemma LastToEmpty(bs: seq<Batch>, cs: seq<seq<string>>, cc: Option<seq<string>>, bcc: Option<seq<string>>)
    requires |bs| == |cs| > 0 && cs[|cs| - 1] == []
    requires forall k :: 0 <= k < |bs| ==> bs[k] == Batch(cs[k], cc, bcc)
    ensures bs[|bs| - 1].to == []
  {
    assert bs[|bs| - 1] == Batch(cs[|cs| - 1], cc, bcc);
  }

  lemma OnlyToBatches(b: Batch)
    requires Oversized(b.to) && !RoleOversized(b, D.CC) && !RoleOversized(b, D.BCC)
    ensures Batches(b) == ForEachChunk(b, D.TO, Chunks(b.to))
  {
    assert !IsLeaf(b);
  }

  /** Only one role is too long: its copy loop submits one batch per chunk, in chunk order, each
      the batch with that chunk in place of the role's array. */
  lemma {:induction false} OneRoleSplit(b: Batch, r: D.Role, chunks: seq<seq<string>>)
    requires Over(b) == 1 && RoleOversized(b, r)
    requires forall k :: 0 <= k < |chunks| ==> |chunks[k]| <= BREAKDOWNDISTRIBUTION
    ensures |ForEachChunk(b, r, chunks)| == |chunks|
    ensures forall k :: 0 <= k < |chunks| ==> ForEachChunk(b, r, chunks)[k] == WithRole(b, r, chunks[k])
    decreases |chunks|
  {
    if chunks != [] {
      var first := WithRole(b, r, chunks[0]);
      OverDecreases(b, r, chunks[0]);
      assert IsLeaf(first);
      assert Batches(first) == [first];
      OneRoleSplit(b, r, chunks[1..]);
      var rest := ForEachChunk(b, r, chunks[1..]);
      assert ForEachChunk(b, r, chunks) == [first] + rest;
      forall k | 1 <= k < |chunks| ensures ForEachChunk(b, r, chunks)[k] == WithRole(b, r, chunks[k]) {
        assert chunks[1..][k - 1] == chunks[k];
      }
    }
  }

  /** Only CC is too long: the batches are the CC chunks, each with the original TO and BCC. */
  lemma OnlyCcShape(b: Batch)
    requires !RoleOversized(b, D.TO) && RoleOversized(b, D.CC) && !RoleOversized(b, D.BCC)
    ensures |Batches(b)| == |Chunks(b.cc.value)|
    ensures forall k :: 0 <= k < |Batches(b)| ==> Batches(b)[k] == Batch(b.to, Some(Chunks(b.cc.value)[k]), b.bcc)
  {
    assert !IsLeaf(b);
    assert Batches(b) == ForEachChunk(b, D.CC, Chunks(b.cc.value));
    OneRoleSplit(b, D.CC, Chunks(b.cc.value));
  }

  /** The array a batch holds for a role; CC and BCC may be null. */
  function RoleArray(b: Batch, r: D.Role): Option<seq<string>>
  {
    match r
    case TO => Some(b.to)
    case CC => b.cc
    case BCC => b.bcc
  }

  /** Every TO, CC and BCC address of the distribution is in the same role's array of some
      submitted batch. */
  lemma BatchesCover(b: Batch, r: D.Role, a: string)
    requires RoleArray(b, r).Some? && a in RoleArray(b, r).value
    ensures exists k :: 0 <= k < |Batches(b)| && RoleArray(Batches(b)[k], r).Some? && a in RoleArray(Batches(b)[k], r).value
  {
    BatchesKeepSmallRoles(b);
    if RoleOversized(b, r) {
      var k := CoverFromLoop(b, r, a);
    } else {
      assert RoleArray(Batches(b)[0], r) == RoleArray(b, r);
    }
  }

  /** An address of an oversized role reaches a batch of that role's copy loop, which holds the
      address's chunk in that role. */
  lemma CoverFromLoop(b: Batch, r: D.Role, a: string) returns (k: nat)
    requires RoleOversized(b, r) && a in RoleSeq(b, r)
    ensures k < |Batches(b)| && RoleArray(Batches(b)[k], r).Some? && a in RoleArray(Batches(b)[k], r).value
  {
    var cs := Chunks(RoleSeq(b, r));
    ChunkConcat(RoleSeq(b, r), 0);
    var c := ChunkHolding(cs, a);
    var sub := WithRole(b, r, cs[c]);
    BatchesKeepSmallRoles(sub);
    var j := InForEachChunk(b, r, cs, c, 0);
    var x := Batches(sub)[0];
    assert RoleArray(x, r) == Some(cs[c]);
    assert x in Batches(b) by {
      assert x == ForEachChunk(b, r, cs)[j];
    }
    k :| 0 <= k < |Batches(b)| && Batches(b)[k] == x;
  }

  /** The chunk an address of the concatenation is in. */
  lemma {:induction false} ChunkHolding(cs: seq<seq<string>>, a: string) returns (c: nat)
    requires a in Concat(cs)
    ensures c < |cs| && a in cs[c]
    decreases |cs|
  {
    assert cs != [];
    if a in cs[0] {
      c := 0;
    } else {
      assert Concat(cs) == cs[0] + Concat(cs[1..]);
      var c' := ChunkHolding(cs[1..], a);
      c := c' + 1;
    }
  }

  /** Where the k-th element of part c sits in the concatenation of the parts. */
  lemma {:induction false} ConcatAt<T>(parts: seq<seq<T>>, c: nat, k: nat) returns (j: nat)
    requires c < |parts| && k < |parts[c]|
    ensures j < |Concat(parts)| && Concat(parts)[j] == parts[c][k]
    decreases c
  {
    if c == 0 {
      j := k;
    } else {
      assert parts[c] == parts[1..][c - 1];
      var j' := ConcatAt(parts[1..], c - 1, k);
      j := |parts[0]| + j';
    }
  }

  /** The batches of each chunk of one copy loop, chunk by chunk. */
  function ChunkBatches(b: Batch, r: D.Role, chunks: seq<seq<string>>): (p: seq<seq<Batch>>)
    requires RoleOversized(b, r)
    requires forall k :: 0 <= k < |chunks| ==> |chunks[k]| <= BREAKDOWNDISTRIBUTION
    ensures |p| == |chunks|
    ensures forall i :: 0 <= i < |chunks| ==> p[i] == Batches(WithRole(b, r, chunks[i]))
  {
    seq(|chunks|, i requires 0 <= i < |chunks| => Batches(WithRole(b, r, chunks[i])))
  }

  /** A copy loop submits the batches of its chunks one chunk after the other. */
  lemma {:induction false} ForEachChunkConcat(b: Batch, r: D.Role, chunks: seq<seq<string>>)
    requires RoleOversized(b, r)
    requires forall k :: 0 <= k < |chunks| ==> |chunks[k]| <= BREAKDOWNDISTRIBUTION
    ensures ForEachChunk(b, r, chunks) == Concat(ChunkBatches(b, r, chunks))
    decreases |chunks|
  {
    if chunks != [] {
      ForEachChunkConcat(b, r, chunks[1..]);
      assert ChunkBatches(b, r, chunks)[1..] == ChunkBatches(b, r, chunks[1..]);
    }
  }

  /** Where the k-th batch of chunk c sits in the loop's output. */
  lemma InForEachChunk(b: Batch, r: D.Role, chunks: seq<seq<string>>, c: nat, k: nat)
    returns (j: nat)
    requires RoleOversized(b, r)
    requires forall i :: 0 <= i < |chunks| ==> |chunks[i]| <= BREAKDOWNDISTRIBUTION
    requires c < |chunks| && k < |Batches(WithRole(b, r, chunks[c]))|
    ensures j < |ForEachChunk(b, r, chunks)|
    ensures ForEachChunk(b, r, chunks)[j] == Batches(WithRole(b, r, chunks[c]))[k]
  {
    ForEachChunkConcat(b, r, chunks);
    j := ConcatAt(ChunkBatches(b, r, chunks), c, k);
  }

  /** Parts all of length n: the concatenation has |parts| * n elements. */
  lemma {:induction false} ConcatLength<T>(parts: seq<seq<T>>, n: nat)
    requires forall c :: 0 <= c < |parts| ==> |parts[c]| == n
    ensures |Concat(parts)| == |parts| * n
    decreases |parts|
  {
    if parts != [] {
      ConcatLength(parts[1..], n);
      assert |Concat(parts)| == n + |Concat(parts[1..])|;
      assert |parts| * n == n + (|parts| - 1) * n;
    }
  }

  /** The batch of every TO chunk with every CC chunk, one row per TO chunk. */
  function ToMajorPairs(ts: seq<seq<string>>, cs: seq<seq<string>>, bcc: Option<seq<string>>): (p: seq<seq<Batch>>)
    ensures |p| == |ts| && forall i :: 0 <= i < |ts| ==> |p[i]| == |cs|
  {
    seq(|ts|, i requires 0 <= i < |ts| => seq(|cs|, j requires 0 <= j < |cs| => Batch(ts[i], Some(cs[j]), bcc)))
  }

  /** The batch of every TO chunk with every CC chunk, one row per CC chunk. */
  function CcMajorPairs(ts: seq<seq<string>>, cs: seq<seq<string>>, bcc: Option<seq<string>>): (p: seq<seq<Batch>>)
    ensures |p| == |cs| && forall j :: 0 <= j < |cs| ==> |p[j]| == |ts|
  {
    seq(|cs|, j requires 0 <= j < |cs| => seq(|ts|, i requires 0 <= i < |ts| => Batch(ts[i], Some(cs[j]), bcc)))
  }

  /** With TO and CC both too long, the TO copy loop submits, TO chunk by TO chunk, the batch of
      that chunk with each CC chunk in turn. */
  lemma ToLoopPairs(b: Batch)
    requires Oversized(b.to) && RoleOversized(b, D.CC) && !RoleOversized(b, D.BCC)
    ensures ForEachChunk(b, D.TO, Chunks(b.to)) == Concat(ToMajorPairs(Chunks(b.to), Chunks(b.cc.value), b.bcc))
  {
    var ts, cs := Chunks(b.to), Chunks(b.cc.value);
    ForEachChunkConcat(b, D.TO, ts);
    var parts, pairs := ChunkBatches(b, D.TO, ts), ToMajorPairs(ts, cs, b.bcc);
    forall i | 0 <= i < |ts| ensures parts[i] == pairs[i] {
      var bi := WithRole(b, D.TO, ts[i]);
      assert bi == Batch(ts[i], b.cc, b.bcc);
      OnlyCcShape(bi);
    }
    assert parts == pairs;
  }

  /** With TO and CC both too long, the CC copy loop submits, CC chunk by CC chunk, the batch of
      each TO chunk in turn with that CC chunk. */
  lemma CcLoopPairs(b: Batch)
    requires Oversized(b.to) && RoleOversized(b, D.CC) && !RoleOversized(b, D.BCC)
    ensures ForEachChunk(b, D.CC, Chunks(b.cc.value)) == Concat(CcMajorPairs(Chunks(b.to), Chunks(b.cc.value), b.bcc))
  {
    var ts, cs := Chunks(b.to), Chunks(b.cc.value);
    ForEachChunkConcat(b, D.CC, cs);
    var parts, pairs := ChunkBatches(b, D.CC, cs), CcMajorPairs(ts, cs, b.bcc);
    forall j | 0 <= j < |cs| ensures parts[j] == pairs[j] {
      var bj := WithRole(b, D.CC, cs[j]);
      assert bj == Batch(b.to, Some(cs[j]), b.bcc);
      OnlyToShape(bj);
    }
    assert parts == pairs;
  }

  /** With TO and CC both too long (and BCC not), the batches are every pair of a TO chunk and a CC
      chunk in TO-major order, from the TO loop, followed by every pair again in CC-major order,
      from the CC loop: twice as many batches as pairs. */
  lemma ToAndCcBothShape(b: Batch)
    requires Oversized(b.to) && RoleOversized(b, D.CC) && !RoleOversized(b, D.BCC)
    ensures var ts, cs := Chunks(b.to), Chunks(b.cc.value);
      Batches(b) == Concat(ToMajorPairs(ts, cs, b.bcc)) + Concat(CcMajorPairs(ts, cs, b.bcc))
    ensures |Batches(b)| == 2 * (|Chunks(b.to)| * |Chunks(b.cc.value)|)
  {
    var ts, cs := Chunks(b.to), Chunks(b.cc.value);
    assert Batches(b) == ForEachChunk(b, D.TO, ts) + ForEachChunk(b, D.CC, cs);
    ToLoopPairs(b);
    CcLoopPairs(b);
    ConcatLength(ToMajorPairs(ts, cs, b.bcc), |cs|);
    ConcatLength(CcMajorPairs(ts, cs, b.bcc), |ts|);
    assert |cs| * |ts| == |ts| * |cs|;
  }

  /** When TO and CC are both too long, the batch of every TO chunk with every CC chunk is
      submitted twice: once from the TO loop and once more, later, from the CC loop. */
  lemma ToAndCcBothSplitTwice(b: Batch, i: nat, j: nat) returns (q1: nat, q2: nat)
    requires Oversized(b.to) && RoleOversized(b, D.CC) && !RoleOversized(b, D.BCC)
    requires i < |Chunks(b.to)| && j < |Chunks(b.cc.value)|
    ensures q1 < q2 < |Batches(b)|
    ensures Batches(b)[q1] == Batch(Chunks(b.to)[i], Some(Chunks(b.cc.value)[j]), b.bcc)
    ensures Batches(b)[q2] == Batch(Chunks(b.to)[i], Some(Chunks(b.cc.value)[j]), b.bcc)
  {
    var ts, cs := Chunks(b.to), Chunks(b.cc.value);
    var byTo, byCc := ToMajorPairs(ts, cs, b.bcc), CcMajorPairs(ts, cs, b.bcc);
    ToAndCcBothShape(b);
    q1 := ConcatAt(byTo, i, j);
    var k := ConcatAt(byCc, j, i);
    q2 := |Concat(byTo)| + k;
  }


  // ---------------------------------------------------------------------------
  // One batch: the Runnable and send()

  /** The recipients a message carries. CC and BCC are sets: they come from a HashSet. */
  datatype Envelope = Envelope(from: D.Addr, to: seq<string>, cc: set<string>, bcc: set<string>)

  /** What Transport.send reports: success; an exception other than SendFailedException (only printed);
      or a SendFailedException with its three address arrays, each possibly null. */
  datatype Outcome =
    | Delivered
    | Failed
    | Refused(invalid: Option<seq<string>>, validUnsent: Option<seq<string>>, validSent: Option<seq<string>>)

  /** The mail transport, for a message with the given recipients. */
  type Transport = Envelope -> Outcome

  /** The error text an email send leaves in the ledger, and the addresses it records. */
  datatype Ledger = Ledger(sentTo: set<string>, errors: string)

  const INVALID_PREFIX: string := "Invalid email address for address:"

  /** The error line for one refused address. */
  function InvalidLine(a: string): string
  {
    INVALID_PREFIX + a + "\n"
  }

  /** The error text for the refused addresses, one line each, in the order reported. */
  function InvalidLines(s: seq<string>): string
    decreases |s|
  {
    if s == [] then "" else InvalidLines(s[..|s| - 1]) + InvalidLine(s[|s| - 1])
  }

  function Elems(o: Option<seq<string>>): set<string>
  {
    if o.Some? then set a | a in o.value else {}
  }

  /** The addresses of `s` the ledger does not hold yet. */
  function Unsent(s: seq<string>, sentTo: set<string>): set<string>
  {
    set a | a in s && a !in sentTo
  }

  /** getAllRecipients. */
  function Recipients(env: Envelope): set<string>
  {
    (set a | a in env.to) + env.cc + env.bcc
  }

  /** The message the Runnable builds: TO as given, CC and BCC without the addresses already sent to. */
  function FirstEnvelope(from: D.Addr, b: Batch, sentTo: set<string>): Envelope
    requires b.cc.Some? && b.bcc.Some?
  {
    Envelope(from, b.to, Unsent(b.cc.value, sentTo), Unsent(b.bcc.value, sentTo))
  }

  datatype SendResult = SendResult(final: Envelope, error: string)

  /** send(): after a SendFailedException with a valid-unsent array, the message keeps its TO and loses
      from CC and BCC every invalid and every already-delivered address, and is sent again (with
      whatever outcome); each invalid address adds an error line. Otherwise the message is unchanged. */
  function AfterSend(env: Envelope, o: Outcome): SendResult
  {
    if o.Refused? && o.validUnsent.Some? then
      var drop := Elems(o.invalid) + Elems(o.validSent);
      SendResult(env.(cc := env.cc - drop, bcc := env.bcc - drop),
                 if o.invalid.Some? then InvalidLines(o.invalid.value) else "")
    else SendResult(env, "")
  }

  /** What one submitted batch does to the ledger. A null CC or BCC array fails in the Runnable's loops,
      and a message that cannot be assembled fails before sending; either failure is logged as an
      exception. Otherwise the batch is sent and the ledger gets the error lines and every recipient
      left on the message, whether or not the send succeeded. */
  function RunBatch(l: Ledger, from: D.Addr, b: Batch, failure: Option<JavaException>, transport: Transport): Ledger
  {
    if b.cc.None? || b.bcc.None? then l.(errors := l.errors + ExceptionEntry(NullDeref()))
    else if failure.Some? then l.(errors := l.errors + ExceptionEntry(failure.value))
    else
      var env := FirstEnvelope(from, b, l.sentTo);
      var res := AfterSend(env, transport(env));
      Ledger(l.sentTo + Recipients(res.final), l.errors + res.error)
  }

  /** The batches run one after another on the same ledger. */
  function RunAll(l: Ledger, from: D.Addr, bs: seq<Batch>, failure: Option<JavaException>, transport: Transport): Ledger
    decreases |bs|
  {
    if bs == [] then l else RunAll(RunBatch(l, from, bs[0], failure, transport), from, bs[1..], failure, transport)
  }

  // ---------------------------------------------------------------------------
  // Properties of a batch

  /** The retry keeps the sender and TO, only ever removes CC and BCC addresses, and removes every
      invalid address from them. */
  lemma RetryKeepsTo(env: Envelope, o: Outcome)
    ensures AfterSend(env, o).final.from == env.from && AfterSend(env, o).final.to == env.to
    ensures AfterSend(env, o).final.cc <= env.cc && AfterSend(env, o).final.bcc <= env.bcc
    ensures o.Refused? && o.validUnsent.Some? ==>
      forall a :: a in Elems(o.invalid) ==> a !in AfterSend(env, o).final.cc && a !in AfterSend(env, o).final.bcc
    ensures !(o.Refused? && o.validUnsent.Some?) ==> AfterSend(env, o) == SendResult(env, "")
  {
  }

  /** A CC or BCC address the transport refused or already delivered to is left off the retry and
      is not recorded, unless it is also a TO recipient or was recorded before. */
  lemma RefusedNotRecorded(l: Ledger, from: D.Addr, b: Batch, transport: Transport, a: string)
    requires b.cc.Some? && b.bcc.Some?
    requires transport(FirstEnvelope(from, b, l.sentTo)).Refused?
    requires transport(FirstEnvelope(from, b, l.sentTo)).validUnsent.Some?
    requires a in Elems(transport(FirstEnvelope(from, b, l.sentTo)).invalid)
          || a in Elems(transport(FirstEnvelope(from, b, l.sentTo)).validSent)
    requires a !in b.to && a !in l.sentTo
    ensures a !in RunBatch(l, from, b, None, transport).sentTo
  {
  }

  /** The error text names each refused address on a line of its own. */
  lemma {:induction false} InvalidLinesMention(s: seq<string>, k: nat)
    requires k < |s|
    ensures Contains(InvalidLines(s), InvalidLine(s[k]))
    decreases |s|
  {
    var init := s[..|s| - 1];
    var line := InvalidLine(s[|s| - 1]);
    assert InvalidLines(s) == InvalidLines(init) + line;
    if k == |s| - 1 {
      assert Contains(line, line);
      ContainsInSuffix(InvalidLines(init), line, line);
    } else {
      assert s[k] == init[k];
      InvalidLinesMention(init, k);
      ContainsInPrefix(InvalidLines(init), line, InvalidLine(s[k]));
    }
  }

  /** A null CC or BCC array costs only the logged null-pointer entry. */
  lemma NullCcOrBccLogsNpe(l: Ledger, from: D.Addr, b: Batch, failure: Option<JavaException>, transport: Transport)
    requires b.cc.None? || b.bcc.None?
    ensures RunBatch(l, from, b, failure, transport)
      == Ledger(l.sentTo, l.errors + ExceptionEntry(NullDeref()))
    ensures ExceptionEntry(NullDeref()) == "[ERROR]:" + "java.lang.NullPointerException" + " [MSG]:" + "null"
  {
    NpeEntryText();
  }

  /** The text a caught null-pointer exception leaves in the ledger. */
  lemma NpeEntryText()
    ensures ExceptionEntry(NullDeref()) == "[ERROR]:" + "java.lang.NullPointerException" + " [MSG]:" + "null"
  {
    assert ExceptionText(NullDeref()) == NPE_CLASS;
    assert Text(None) == "null";
  }

  /** A CC or BCC address already in the ledger is not put on the message again; TO is not filtered. */
  lemma SentAddressesNotResent(from: D.Addr, b: Batch, sentTo: set<string>, a: string)
    requires b.cc.Some? && b.bcc.Some?
    ensures a in sentTo ==> a !in FirstEnvelope(from, b, sentTo).cc && a !in FirstEnvelope(from, b, sentTo).bcc
    ensures a in b.cc.value && a !in sentTo ==> a in FirstEnvelope(from, b, sentTo).cc
    ensures FirstEnvelope(from, b, sentTo).to == b.to
  {
  }

  /** The ledger records the recipients even when the send failed outright, and only adds. */
  lemma FailedSendStillRecorded(l: Ledger, from: D.Addr, b: Batch, transport: Transport)
    requires b.cc.Some? && b.bcc.Some?
    requires transport(FirstEnvelope(from, b, l.sentTo)) == Failed
    ensures RunBatch(l, from, b, None, transport)
      == Ledger(l.sentTo + Recipients(FirstEnvelope(from, b, l.sentTo)), l.errors)
  {
  }

  /** The ledger only grows: addresses are added and error text appended, over any number of batches. */
  lemma {:induction false} RunAllGrows(l: Ledger, from: D.Addr, bs: seq<Batch>, failure: Option<JavaException>, transport: Transport)
    ensures l.sentTo <= RunAll(l, from, bs, failure, transport).sentTo
    ensures l.errors <= RunAll(l, from, bs, failure, transport).errors
    decreases |bs|
  {
    if bs != [] {
      var l' := RunBatch(l, from, bs[0], failure, transport);
      assert l.sentTo <= l'.sentTo && l.errors <= l'.errors;
      RunAllGrows(l', from, bs[1..], failure, transport);
    }
  }

  /** A message that cannot be assembled records no address, whatever the distribution. */
  lemma {:induction false} AssemblyFailureRecordsNothing(l: Ledger, from: D.Addr, bs: seq<Batch>, e: JavaException, transport: Transport)
    ensures RunAll(l, from, bs, Some(e), transport).sentTo == l.sentTo
    decreases |bs|
  {
    if bs != [] {
      RunAllGrows(l, from, [], Some(e), transport);
      AssemblyFailureRecordsNothing(RunBatch(l, from, bs[0], Some(e), transport), from, bs[1..], e, transport);
    }
  }

  // ---------------------------------------------------------------------------
  // The imperative sending

  /** The dedup loop of the Runnable; reads the ledger and changes nothing. */
  method Deduplicate(log: EmailSendLog, s: seq<string>) returns (temp: set<string>)
    ensures temp == Unsent(s, log.sentTo)
  {
    temp := {};
    var i := 0;
    while i < |s|
      invariant 0 <= i <= |s|
      invariant temp == Unsent(s[..i], log.sentTo)
    {
      var sent := log.AlreadySentTo(s[i]);
      if !sent {
        temp := temp + {s[i]};
      }
      assert s[..i + 1] == s[..i] + [s[i]];
      i := i + 1;
    }
    assert s[..|s|] == s;
  }

  /** The removal loops of send(): each listed address leaves CC and BCC, and, for the invalid
      array, adds its error line. */
  method RemoveAll(cc: set<string>, bcc: set<string>, s: seq<string>, withLines: bool)
    returns (cc': set<string>, bcc': set<string>, lines: string)
    ensures cc' == cc - (set a | a in s) && bcc' == bcc - (set a | a in s)
    ensures lines == if withLines then InvalidLines(s) else ""
  {
    cc', bcc', lines := cc, bcc, "";
    var i := 0;
    while i < |s|
      invariant 0 <= i <= |s|
      invariant cc' == cc - (set a | a in s[..i]) && bcc' == bcc - (set a | a in s[..i])
      invariant lines == if withLines then InvalidLines(s[..i]) else ""
    {
      assert s[..i + 1][..i] == s[..i];
      if withLines {
        lines := lines + InvalidLine(s[i]);
      }
      cc' := cc' - {s[i]};
      bcc' := bcc' - {s[i]};
      assert s[..i + 1] == s[..i] + [s[i]];
      i := i + 1;
    }
    assert s[..|s|] == s;
  }

  /** The finally block's loop: every recipient is recorded. */
  method RecordAll(log: EmailSendLog, env: Envelope)
    modifies log
    ensures log.sentTo == old(log.sentTo) + Recipients(env) && log.errors == old(log.errors)
  {
    var i := 0;
    while i < |env.to|
      invariant 0 <= i <= |env.to|
      invariant log.sentTo == old(log.sentTo) + (set a | a in env.to[..i]) && log.errors == old(log.errors)
    {
      log.LogSentTo(env.to[i]);
      assert env.to[..i + 1] == env.to[..i] + [env.to[i]];
      i := i + 1;
    }
    assert env.to[..|env.to|] == env.to;
    RecordSet(log, env.cc);
    RecordSet(log, env.bcc);
  }

  method RecordSet(log: EmailSendLog, s: set<string>)
    modifies log
    ensures log.sentTo == old(log.sentTo) + s && log.errors == old(log.errors)
  {
    var rest := s;
    while rest != {}
      invariant rest <= s
      invariant log.sentTo == old(log.sentTo) + (s - rest) && log.errors == old(log.errors)
      decreases |rest|
    {
      var a :| a in rest;
      log.LogSentTo(a);
      rest := rest - {a};
    }
  }

  /** send(mymsg, sendlog). */
  method Send(log: EmailSendLog, env: Envelope, transport: Transport)
    modifies log
    ensures log.sentTo == old(log.sentTo) + Recipients(AfterSend(env, transport(env)).final)
    ensures log.errors == old(log.errors) + AfterSend(env, transport(env)).error
  {
    var error := "";
    var final := env;
    var outcome := transport(env);
    if outcome.Refused? && outcome.validUnsent.Some? {
      var cc, bcc := env.cc, env.bcc;
      if outcome.invalid.Some? {
        cc, bcc, error := RemoveAll(cc, bcc, outcome.invalid.value, true);
      }
      if outcome.validSent.Some? {
        var ignored;
        cc, bcc, ignored := RemoveAll(cc, bcc, outcome.validSent.value, false);
      }
      // the second Transport.send: its outcome is not looked at
      final := Envelope(env.from, env.to, cc, bcc);
    }
    if |error| > 0 {
      log.LogError(error);
    }
    RecordAll(log, final);
  }

  /** The Runnable of one batch; `failure` is what getAsMultipart throws for the message, if anything. */
  method RunLeaf(log: EmailSendLog, from: D.Addr, b: Batch, failure: Option<JavaException>, transport: Transport)
    modifies log
    ensures Ledger(log.sentTo, log.errors)
      == RunBatch(Ledger(old(log.sentTo), old(log.errors)), from, b, failure, transport)
  {
    if b.cc.None? {
      log.LogException(NullDeref());
      return;
    }
    var cc := Deduplicate(log, b.cc.value);
    if b.bcc.None? {
      log.LogException(NullDeref());
      return;
    }
    var bcc := Deduplicate(log, b.bcc.value);
    if failure.Some? {
      log.LogException(failure.value);
      return;
    }
    Send(log, Envelope(from, b.to, cc, bcc), transport);
  }

  /** The submitted batches, run in order. */
  method RunBatches(log: EmailSendLog, from: D.Addr, bs: seq<Batch>, failure: Option<JavaException>, transport: Transport)
    modifies log
    ensures Ledger(log.sentTo, log.errors) == RunAll(Ledger(old(log.sentTo), old(log.errors)), from, bs, failure, transport)
  {
    ghost var l := Ledger(log.sentTo, log.errors);
    ghost var target := RunAll(l, from, bs, failure, transport);
    var i := 0;
    while i < |bs|
      invariant 0 <= i <= |bs|
      invariant Ledger(log.sentTo, log.errors) == l
      invariant RunAll(l, from, bs[i..], failure, transport) == target
    {
      RunAllStep(l, from, bs, i, failure, transport);
      RunLeaf(log, from, bs[i], failure, transport);
      l := RunBatch(l, from, bs[i], failure, transport);
      i := i + 1;
    }
    assert bs[i..] == [];
  }

  /** Running the batches from i on runs batch i first, then those after it. */
  lemma RunAllStep(l: Ledger, from: D.Addr, bs: seq<Batch>, i: nat, failure: Option<JavaException>, transport: Transport)
    requires i < |bs|
    ensures RunAll(l, from, bs[i..], failure, transport)
      == RunAll(RunBatch(l, from, bs[i], failure, transport), from, bs[i + 1..], failure, transport)
  {
    assert bs[i..][1..] == bs[i + 1..];
  }

  /** The private sendEmailMessage on its arrays; a null TO array fails at once. */
  method SendToRecipients(log: EmailSendLog, from: D.Addr, to: Option<seq<string>>, cc: Option<seq<string>>,
                          bcc: Option<seq<string>>, failure: Option<JavaException>, transport: Transport)
    returns (r: Result<(), JavaException>)
    modifies log
    ensures to.None? ==> r == Err(NullDeref()) && log.sentTo == old(log.sentTo) && log.errors == old(log.errors)
    ensures to.Some? ==> r.Ok?
    ensures to.Some? ==>
      Ledger(log.sentTo, log.errors) == RunAll(Ledger(old(log.sentTo), old(log.errors)), from, Batches(Batch(to.value, cc, bcc)), failure, transport)
  {
    if to.None? {
      return Err(NullDeref());
    }
    var batches := Split(Batch(to.value, cc, bcc));
    RunBatches(log, from, batches, failure, transport);
    return Ok(());
  }

  function FailureOf(r: Result<M.Multipart, JavaException>): Option<JavaException>
  {
    if r.Err? then Some(r.error) else None
  }

  /** What getRecipients may return for one role of a distribution: null when the role has no
      group, otherwise every member address of its groups once, in some order. */
  ghost predicate FlatRecipients(d: D.Dist, role: D.Role, r: Option<seq<string>>)
  {
    && (r.None? <==> |D.RoleMapOf(d, role)| == 0)
    && (r.Some? ==> D.NoDup(r.value) && forall x :: x in r.value <==> x in D.Flat(D.RoleMapOf(d, role)))
  }

  /** sendEmailMessage once the message's assembly outcome is known: the distribution's FROM and its
      flattened TO, CC and BCC (returned as `to`, `cc` and `bcc`), split into batches, each sent or
      logged with that outcome. A distribution without a TO group fails before anything is sent. */
  method SendToDistribution(log: EmailSendLog, d: D.EmailDistribution, failure: Option<JavaException>, transport: Transport)
    returns (r: Result<(), JavaException>, ghost to: Option<seq<string>>, ghost cc: Option<seq<string>>,
             ghost bcc: Option<seq<string>>)
    modifies log
    ensures |D.RoleMapOf(d.Value(), D.TO)| == 0 ==> r == Err(NullDeref())
    ensures r.Ok? <==> |D.RoleMapOf(d.Value(), D.TO)| > 0
    ensures r.Err? ==> log.sentTo == old(log.sentTo) && log.errors == old(log.errors)
    ensures FlatRecipients(d.Value(), D.TO, to) && FlatRecipients(d.Value(), D.CC, cc) && FlatRecipients(d.Value(), D.BCC, bcc)
    ensures r.Ok? ==>
      Ledger(log.sentTo, log.errors)
        == RunAll(Ledger(old(log.sentTo), old(log.errors)), d.from, Batches(Batch(to.value, cc, bcc)), failure, transport)
    ensures old(log.sentTo) <= log.sentTo && old(log.errors) <= log.errors
    ensures failure.Some? ==> log.sentTo == old(log.sentTo)
  {
    var toList := d.GetRecipients(D.TO);
    var ccList := d.GetRecipients(D.CC);
    var bccList := d.GetRecipients(D.BCC);
    to, cc, bcc := toList, ccList, bccList;
    ghost var l := Ledger(log.sentTo, log.errors);
    r := SendToRecipients(log, d.from, toList, ccList, bccList, failure, transport);
    if toList.Some? {
      RunAllGrows(l, d.from, Batches(Batch(toList.value, ccList, bccList)), failure, transport);
      if failure.Some? {
        AssemblyFailureRecordsNothing(l, d.from, Batches(Batch(toList.value, ccList, bccList)), failure.value, transport);
      }
    }
  }

  /** sendEmailMessage(email): a message without a distribution fails before anything is sent;
      otherwise its distribution is sent with the exception its assembly ends with, if any. */
  method SendEmailMessage(email: Email, parse: string -> M.Html, transport: Transport)
    returns (r: Result<(), JavaException>, ghost to: Option<seq<string>>, ghost cc: Option<seq<string>>,
             ghost bcc: Option<seq<string>>)
    modifies email.sendlog
    ensures email.distribution == null ==> r == Err(NullDeref())
    ensures email.distribution != null && |D.RoleMapOf(email.distribution.Value(), D.TO)| == 0 ==> r == Err(NullDeref())
    ensures r.Ok? <==> email.distribution != null && |D.RoleMapOf(email.distribution.Value(), D.TO)| > 0
    ensures r.Err? ==> email.sendlog.sentTo == old(email.sendlog.sentTo) && email.sendlog.errors == old(email.sendlog.errors)
    ensures email.distribution != null ==>
      && FlatRecipients(email.distribution.Value(), D.TO, to)
      && FlatRecipients(email.distribution.Value(), D.CC, cc)
      && FlatRecipients(email.distribution.Value(), D.BCC, bcc)
    ensures r.Ok? ==>
      Ledger(email.sendlog.sentTo, email.sendlog.errors)
        == RunAll(Ledger(old(email.sendlog.sentTo), old(email.sendlog.errors)), email.distribution.from,
                  Batches(Batch(to.value, cc, bcc)), M.AssemblyFailure(email.body, email.subject, email.attachments, parse),
                  transport)
    ensures old(email.sendlog.sentTo) <= email.sendlog.sentTo && old(email.sendlog.errors) <= email.sendlog.errors
    ensures M.AssemblyFailure(email.body, email.subject, email.attachments, parse).Some? ==>
      email.sendlog.sentTo == old(email.sendlog.sentTo)
  {
    to, cc, bcc := None, None, None;
    if email.distribution == null {
      return Err(NullDeref()), to, cc, bcc;
    }
    var content := email.GetAsMultipart(parse);
    assert FailureOf(content) == M.AssemblyFailure(email.body, email.subject, email.attachments, parse);
    r, to, cc, bcc := SendToDistribution(email.sendlog, email.distribution, FailureOf(content), transport);
  }

  /** sendEmailMessage for a message built from a template: the same, with its own distribution and
      ledger and the message that its overriding getters assemble. */
  method SendFromTemplate(m: T.EmailFromTemplate, parse: string -> M.Html, fill: (string, string) -> string,
                          transport: Transport)
    returns (r: Result<(), JavaException>, ghost to: Option<seq<string>>, ghost cc: Option<seq<string>>,
             ghost bcc: Option<seq<string>>)
    modifies m.own.sendlog
    ensures r.Ok? <==> m.own.distribution != null && |D.RoleMapOf(m.own.distribution.Value(), D.TO)| > 0
    ensures r.Err? ==>
      r == Err(NullDeref()) && m.own.sendlog.sentTo == old(m.own.sendlog.sentTo) && m.own.sendlog.errors == old(m.own.sendlog.errors)
    ensures m.own.distribution != null ==>
      && FlatRecipients(m.own.distribution.Value(), D.TO, to)
      && FlatRecipients(m.own.distribution.Value(), D.CC, cc)
      && FlatRecipients(m.own.distribution.Value(), D.BCC, bcc)
    ensures r.Ok? ==>
      Ledger(m.own.sendlog.sentTo, m.own.sendlog.errors)
        == RunAll(Ledger(old(m.own.sendlog.sentTo), old(m.own.sendlog.errors)), m.own.distribution.from,
                  Batches(Batch(to.value, cc, bcc)), old(TemplateFailure(m, parse, fill)), transport)
    ensures old(m.own.sendlog.sentTo) <= m.own.sendlog.sentTo && old(m.own.sendlog.errors) <= m.own.sendlog.errors
    ensures old(TemplateFailure(m, parse, fill)).Some? ==> m.own.sendlog.sentTo == old(m.own.sendlog.sentTo)
  {
    to, cc, bcc := None, None, None;
    ghost var failure := TemplateFailure(m, parse, fill);
    var own := m.own;
    if own.distribution == null {
      return Err(NullDeref()), to, cc, bcc;
    }
    var content := m.GetAsMultipart(parse, fill);
    assert FailureOf(content) == failure;
    r, to, cc, bcc := SendToDistribution(own.sendlog, own.distribution, FailureOf(content), transport);
  }

  /** The exception a template message's assembly ends with, if any: that of its merged body,
      fallback subject and combined attachments. */
  function TemplateFailure(m: T.EmailFromTemplate, parse: string -> M.Html, fill: (string, string) -> string)
    : (e: Option<JavaException>)
    reads m, m.own, m.template
    ensures m.GetBody(fill).Err? ==> e == Some(NullDeref())
    ensures e.None? <==> m.GetBody(fill).Ok? && M.AssemblyFailure(Some(m.GetBody(fill).value), m.GetSubject(),
                                                                  Some(m.GetAttachments()), parse).None?
  {
    M.AssemblyFailure(if m.GetBody(fill).Ok? then Some(m.GetBody(fill).value) else None, m.GetSubject(),
                      Some(m.GetAttachments()), parse)
  }
}
