/** The extent-map pagination protocol of FiemapFile.FieMap as pure
    functions: which queries are issued, in which order, what each one is
    answered, and what the whole enumeration returns. The kernel's answers
    come from a script: the k-th call is answered by `script[k]` applied to
    the request header of that call. */
module Pagination {
  import opened FiemapAbi
  import opened Kernel

  /** Go's `([]Extent, error)` pair: a value, or a nonzero error number. */
  datatype Result<T> = Ok(value: T) | Err(errno: Errno)

  /** The (start, length) pair of one call of the single query. */
  datatype Query = Query(start: uint64, length: uint64)

  /** The request header the single query hands the kernel for `q`: start
      and length from the query, FIEMAP_FLAG_SYNC, room for NumExts extents,
      and zero in the fields the code does not set. */
  function Request(q: Query): FiemapHeader {
    FiemapHeader(q.start, q.length, FIEMAP_FLAG_SYNC, 0, NumExts, 0)
  }

  /** The kernel's answer to query `q`. */
  function Answer(kernel: Kernel, q: Query): Reply {
    kernel(Request(q))
  }

  /** What the single query returns for a reply. */
  function QueryResult(reply: Reply): Result<seq<Extent>> {
    match reply
    case Failed(e) => Err(e)
    case Mapped(b) => Ok(b)
  }

  /** The extents of a reply; none for a failure. */
  function ExtentsOf(reply: Reply): seq<Extent> {
    if reply.Mapped? then reply.extents else []
  }

  /** The length FieMap asks for: 0 means "to the end of the file". */
  function EffectiveLength(length: uint64): (l: uint64)
    ensures l != 0
    ensures length != 0 ==> l == length
    ensures length == 0 ==> l == FIEMAP_MAX_OFFSET
  {
    if length == 0 then FIEMAP_MAX_OFFSET else length
  }

  predicate HasLast(exts: seq<Extent>) {
    exists j :: 0 <= j < |exts| && IsLast(exts[j])
  }

  lemma HasLastSnoc(s: seq<Extent>, e: Extent)
    ensures HasLast(s + [e]) <==> HasLast(s) || IsLast(e)
  {
    if HasLast(s) {
      var j :| 0 <= j < |s| && IsLast(s[j]);
      assert (s + [e])[j] == s[j];
    }
    if IsLast(e) {
      assert (s + [e])[|s|] == e;
    }
  }

  /** Sum of the extents' lengths, in unbounded arithmetic. */
  function SumLengths(exts: seq<Extent>): nat {
    if exts == [] then 0 else SumLengths(exts[..|exts| - 1]) + exts[|exts| - 1].length
  }

  lemma SumLengthsSnoc(s: seq<Extent>, e: Extent)
    ensures SumLengths(s + [e]) == SumLengths(s) + e.length
  {
    assert (s + [e])[..|s|] == s;
  }

  /** The query after a batch without the LAST flag: the start advances and
      the length shrinks by the batch's total length, both modulo 2^64. */
  function NextQuery(q: Query, batch: seq<Extent>): Query {
    Query(Wrap(q.start + SumLengths(batch)), Wrap(q.length - SumLengths(batch)))
  }

  /** NextQuery extent by extent: advancing over one more extent wraps the
      start and the length once more, which is what FieMap does after each
      extent. */
  lemma NextQuerySnoc(q: Query, s: seq<Extent>, e: Extent)
    ensures NextQuery(q, s + [e]) ==
      Query(Wrap(NextQuery(q, s).start + e.length), Wrap(NextQuery(q, s).length - e.length))
  {
    SumLengthsSnoc(s, e);
    WrapAfterWrap(q.start + SumLengths(s), e.length);
    WrapAfterWrap(q.length - SumLengths(s), -(e.length as int));
  }

  /** A reply after which FieMap issues no further query. */
  predicate Stops(reply: Reply) {
    reply.Failed? || HasLast(reply.extents)
  }

  /** The enumeration that starts with query `q` stops within the script. */
  predicate Halts(script: seq<Kernel>, q: Query)
    decreases |script|
  {
    && |script| > 0
    && var reply := Answer(script[0], q);
       Stops(reply) || Halts(script[1..], NextQuery(q, reply.extents))
  }

  /** The queries issued and the result returned. */
  datatype Outcome = Outcome(queries: seq<Query>, result: Result<seq<Extent>>)

  /** Put queries `qs` and accumulated extents `acc` in front of outcome `o`;
      an error discards the accumulated extents. */
  function Resume(qs: seq<Query>, acc: seq<Extent>, o: Outcome): Outcome {
    Outcome(qs + o.queries,
            match o.result
            case Ok(v) => Ok(acc + v)
            case Err(e) => Err(e))
  }

  lemma ResumeNothing(o: Outcome)
    ensures Resume([], [], o) == o
  {
    match o.result
    case Ok(v) => assert [] + v == v;
    case Err(e) =>
  }

  /** The enumeration from query `q` on, as FieMap performs it. */
  function Run(script: seq<Kernel>, q: Query): (o: Outcome)
    requires Halts(script, q)
    ensures 1 <= |o.queries| <= |script|
    ensures o.queries[0] == q
    decreases |script|
  {
    match Answer(script[0], q)
    case Failed(e) => Outcome([q], Err(e))
    case Mapped(b) =>
      if HasLast(b) then Outcome([q], Ok(b))
      else Resume([q], b, Run(script[1..], NextQuery(q, b)))
  }

  /** One step of Run, given the first answer: an error or a batch with the
      LAST flag ends it, any other batch is followed by the next query. */
  lemma RunStep(script: seq<Kernel>, q: Query, qs: seq<Query>, acc: seq<Extent>)
    requires Halts(script, q)
    ensures Answer(script[0], q).Failed? ==>
      Resume(qs, acc, Run(script, q)) == Outcome(qs + [q], Err(Answer(script[0], q).errno))
    ensures Stops(Answer(script[0], q)) && Answer(script[0], q).Mapped? ==>
      Resume(qs, acc, Run(script, q)) == Outcome(qs + [q], Ok(acc + Answer(script[0], q).extents))
    ensures !Stops(Answer(script[0], q)) ==>
      var b := Answer(script[0], q).extents;
      && Halts(script[1..], NextQuery(q, b))
      && Resume(qs, acc, Run(script, q)) == Resume(qs + [q], acc + b, Run(script[1..], NextQuery(q, b)))
  {
    var reply := Answer(script[0], q);
    if !Stops(reply) {
      var rest := Run(script[1..], NextQuery(q, reply.extents));
      assert qs + ([q] + rest.queries) == (qs + [q]) + rest.queries;
      match rest.result
      case Ok(v) => assert acc + (reply.extents + v) == (acc + reply.extents) + v;
      case Err(e) =>
    }
  }

  // ---------------------------------------------------------------------
  // The protocol, stated call by call

  function Flatten(bs: seq<seq<Extent>>): seq<Extent> {
    if bs == [] then [] else bs[0] + Flatten(bs[1..])
  }

  /** The batch each query in `qs` received, in call order. */
  function Batches(script: seq<Kernel>, qs: seq<Query>): (bs: seq<seq<Extent>>)
    requires |qs| <= |script|
    ensures |bs| == |qs|
  {
    seq(|qs|, k requires 0 <= k < |qs| => ExtentsOf(Answer(script[k], qs[k])))
  }

  /** `o` is what the protocol yields from query `q`: the first query is `q`;
      every answer but the last is an error-free batch without the LAST flag,
      and the next query advances past it; the last answer is an error or a
      batch with the LAST flag; the result is that error, or else every batch
      in call order, concatenated. */
  ghost predicate Follows(script: seq<Kernel>, q: Query, o: Outcome) {
    var qs := o.queries;
    && 1 <= |qs| <= |script|
    && qs[0] == q
    && (forall k :: 0 <= k < |qs| - 1 ==>
          !Stops(Answer(script[k], qs[k])) &&
          qs[k + 1] == NextQuery(qs[k], Answer(script[k], qs[k]).extents))
    && Stops(Answer(script[|qs| - 1], qs[|qs| - 1]))
    && o.result == match Answer(script[|qs| - 1], qs[|qs| - 1])
                   case Failed(e) => Err(e)
                   case Mapped(_) => Ok(Flatten(Batches(script, qs)))
  }

  lemma FlattenOne(b: seq<Extent>)
    ensures Flatten([b]) == b
  {
    assert [b][1..] == [];
  }

  lemma BatchesCons(script: seq<Kernel>, q: Query, qs: seq<Query>)
    requires 1 + |qs| <= |script|
    ensures Batches(script, [q] + qs) == [ExtentsOf(Answer(script[0], q))] + Batches(script[1..], qs)
  {
  }

  /** Run performs the protocol. */
  lemma {:induction false} RunFollows(script: seq<Kernel>, q: Query)
    requires Halts(script, q)
    ensures Follows(script, q, Run(script, q))
    decreases |script|
  {
    match Answer(script[0], q)
    case Failed(e) =>
    case Mapped(b) =>
      if HasLast(b) {
        assert Batches(script, [q]) == [b];
        FlattenOne(b);
      } else {
        var q' := NextQuery(q, b);
        var rest := Run(script[1..], q');
        RunFollows(script[1..], q');
        var o := Run(script, q);
        assert o.queries == [q] + rest.queries;
        forall k | 0 <= k < |o.queries| - 1
          ensures !Stops(Answer(script[k], o.queries[k]))
          ensures o.queries[k + 1] == NextQuery(o.queries[k], Answer(script[k], o.queries[k]).extents)
        {
          if k > 0 {
            assert script[k] == script[1..][k - 1];
          }
        }
        assert script[|o.queries| - 1] == script[1..][|rest.queries| - 1];
        BatchesCons(script, q, rest.queries);
      }
  }

  /** The protocol has one outcome: whatever follows it is Run, and the
      enumeration then halts within the script. */
  lemma {:induction false} FollowsIsRun(script: seq<Kernel>, q: Query, o: Outcome)
    requires Follows(script, q, o)
    ensures Halts(script, q) && o == Run(script, q)
    decreases |script|
  {
    var qs := o.queries;
    var reply := Answer(script[0], q);
    if |qs| == 1 {
      assert qs == [q];
      assert Batches(script, qs) == [ExtentsOf(reply)];
      FlattenOne(ExtentsOf(reply));
    } else {
      assert !Stops(reply);
      var q' := NextQuery(q, reply.extents);
      var rest := Outcome(qs[1..], match o.result case Ok(v) => Ok(v[|reply.extents|..]) case Err(e) => Err(e));
      BatchesCons(script, q, qs[1..]);
      assert [q] + qs[1..] == qs;
      forall k | 0 <= k < |rest.queries| - 1
        ensures !Stops(Answer(script[1..][k], rest.queries[k]))
        ensures rest.queries[k + 1] == NextQuery(rest.queries[k], Answer(script[1..][k], rest.queries[k]).extents)
      {
        assert qs[k + 1] == rest.queries[k];
      }
      assert script[1..][|rest.queries| - 1] == script[|qs| - 1];
      assert Follows(script[1..], q', rest);
      FollowsIsRun(script[1..], q', rest);
    }
  }

  // ---------------------------------------------------------------------
  // Consequences

  /** After an error-free batch that is empty, the identical query is
      issued again: an empty batch neither ends the enumeration nor moves it. */
  lemma EmptyBatchRepeatsQuery(script: seq<Kernel>, q: Query, k: nat)
    requires Halts(script, q)
    requires k < |Run(script, q).queries|
    requires Answer(script[k], Run(script, q).queries[k]) == Mapped([])
    ensures k + 1 < |Run(script, q).queries|
    ensures Run(script, q).queries[k + 1] == Run(script, q).queries[k]
  {
    RunFollows(script, q);
  }

  /** A batch of one extent that covers the whole remaining length leaves
      a length of 0. */
  lemma NextQueryOverWhole(q: Query, e: Extent)
    requires e.length == q.length
    ensures NextQuery(q, [e]) == Query(Wrap(q.start + q.length), 0)
  {
    SumLengthsSnoc([], e);
    assert [] + [e] == [e];
  }

  /** The length is never consulted for termination: a batch that covers the
      whole remaining length but lacks the LAST flag is followed by a query of
      length 0. */
  lemma ExhaustedLengthKeepsQuerying(script: seq<Kernel>, q: Query, e: Extent)
    requires Halts(script, q)
    requires Answer(script[0], q) == Mapped([e])
    requires e.length == q.length && !IsLast(e)
    ensures |Run(script, q).queries| >= 2
    ensures Run(script, q).queries[1] == Query(Wrap(q.start + q.length), 0)
  {
    HasLastSnoc([], e);
    assert [] + [e] == [e];
    NextQueryOverWhole(q, e);
    RunFollows(script, q);
  }

  /** Only an error or the LAST flag ends the enumeration: against replies
      that never carry either (for instance, only empty batches), no script
      is long enough, whatever the start and the length. */
  lemma {:induction false} NoStopNeverHalts(script: seq<Kernel>, q: Query)
    requires forall k, h :: 0 <= k < |script| ==> !Stops(script[k](h))
    ensures !Halts(script, q)
    decreases |script|
  {
    if |script| > 0 {
      var tail := script[1..];
      forall k, h | 0 <= k < |tail| ensures !Stops(tail[k](h)) {
        assert tail[k] == script[k + 1];
      }
      NoStopNeverHalts(tail, NextQuery(q, Answer(script[0], q).extents));
    }
  }

  /** The reply to the last query issued, the one that ends the
      enumeration. */
  function FinalReply(script: seq<Kernel>, q: Query): (r: Reply)
    requires Halts(script, q)
    ensures Stops(r)
    decreases |script|
  {
    var reply := Answer(script[0], q);
    if Stops(reply) then reply else FinalReply(script[1..], NextQuery(q, reply.extents))
  }

  /** An enumeration fails exactly when its final reply is an error, with
      that error, whatever was accumulated before. */
  lemma {:induction false} FailsOnlyWithFinalError(script: seq<Kernel>, q: Query)
    requires Halts(script, q)
    ensures Run(script, q).result.Err? <==> FinalReply(script, q).Failed?
    ensures Run(script, q).result.Err? ==> Run(script, q).result.errno == FinalReply(script, q).errno
    decreases |script|
  {
    var reply := Answer(script[0], q);
    if !Stops(reply) {
      FailsOnlyWithFinalError(script[1..], NextQuery(q, reply.extents));
    }
  }

  /** On success the result ends with the whole final batch, the one with
      the LAST flag, including any extents after the flagged one. */
  lemma {:induction false} FinalBatchKeptWhole(script: seq<Kernel>, q: Query)
    requires Halts(script, q)
    requires Run(script, q).result.Ok?
    ensures FinalReply(script, q).Mapped?
    ensures var v, b := Run(script, q).result.value, FinalReply(script, q).extents;
            HasLast(b) && |b| <= |v| && v[|v| - |b|..] == b
    decreases |script|
  {
    var reply := Answer(script[0], q);
    if !Stops(reply) {
      var q' := NextQuery(q, reply.extents);
      FinalBatchKeptWhole(script[1..], q');
      assert Run(script, q) == Resume([q], reply.extents, Run(script[1..], q'));
      SuffixOfConcat(reply.extents, Run(script[1..], q').result.value, FinalReply(script, q).extents);
    }
  }

  lemma SuffixOfConcat(b: seq<Extent>, w: seq<Extent>, s: seq<Extent>)
    requires |s| <= |w| && w[|w| - |s|..] == s
    ensures |s| <= |b + w| && (b + w)[|b + w| - |s|..] == s
  {
    assert (b + w)[|b + w| - |s|..] == w[|w| - |s|..];
  }

  /** The start advances by the extents' lengths, not to the end of the
      last extent: after a batch with a hole between its extents, the next
      query starts inside the range already reported. */
  lemma AdvanceIgnoresHoles(q: Query, e1: Extent, e2: Extent)
    requires e1.logical == q.start
    requires e1.logical + e1.length < e2.logical
    requires e2.logical + e2.length < TWO_64
    ensures NextQuery(q, [e1, e2]).start < e2.logical + e2.length
  {
    SumLengthsSnoc([], e1);
    SumLengthsSnoc([e1], e2);
    assert [] + [e1] == [e1] && [e1] + [e2] == [e1, e2];
  }

  /** Modular arithmetic behind the per-extent updates of FieMap. */
  lemma WrapAfterWrap(a: int, b: int)
    ensures Wrap(Wrap(a) + b) == Wrap(a + b)
  {
  }
}
