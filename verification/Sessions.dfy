/** What a caller can observe of a hashing context: the octets taken in so far, whether the digest
    has been computed, and the error code the context is stuck with, if any. */
module Sessions {
  import opened Common
  import opened Words
  import opened Padding

  const SHA_SUCCESS := 0
  const SHA_NULL := 1
  const SHA_INPUT_TOO_LONG := 2
  const SHA_STATE_ERROR := 3

  datatype Session = Session(absorbed: seq<Byte>, computed: bool, corrupted: int)

  datatype Call = Reset | Input(data: seq<Byte>) | Result

  datatype Reply = Reply(code: int, digest: Option<seq<Byte>>)

  const FRESH := Session([], false, 0)

  function Take(s: seq<Byte>, n: nat): seq<Byte> {
    if n <= |s| then s[..n] else s
  }

  function AfterInput(s: Session, data: seq<Byte>): Session {
    if data == [] then s
    else if s.computed then s.(corrupted := SHA_STATE_ERROR)
    else if s.corrupted != 0 then s
    else
      var absorbed := Take(s.absorbed + data, BYTE_LIMIT);
      s.(absorbed := absorbed, corrupted := if |absorbed| == BYTE_LIMIT then 1 else 0)
  }

  function After(s: Session, call: Call): Session {
    match call
    case Reset => FRESH
    case Input(data) => AfterInput(s, data)
    case Result => if s.corrupted != 0 then s else s.(computed := true)
  }

  function ReplyTo(s: Session, call: Call): Reply {
    match call
    case Reset => Reply(SHA_SUCCESS, None)
    case Input(data) =>
      if data == [] then Reply(SHA_SUCCESS, None)
      else if s.computed then Reply(SHA_STATE_ERROR, None)
      else Reply(s.corrupted, None)
    case Result =>
      if s.corrupted != 0 then Reply(s.corrupted, None) else Reply(SHA_SUCCESS, Some(Sha1(s.absorbed)))
  }

  function AfterAll(s: Session, calls: seq<Call>): Session {
    if calls == [] then s else
    var n := |calls| - 1;
    After(AfterAll(s, calls[..n]), calls[n])
  }

  function Replies(s: Session, calls: seq<Call>): (replies: seq<Reply>)
    ensures |replies| == |calls|
  {
    if calls == [] then [] else
    var n := |calls| - 1;
    Replies(s, calls[..n]) + [ReplyTo(AfterAll(s, calls[..n]), calls[n])]
  }

  /** Each reply of a run is the one given after the calls before it. */
  lemma {:induction false} ReplyAt(s: Session, calls: seq<Call>, i: nat)
    requires i < |calls|
    ensures Replies(s, calls)[i] == ReplyTo(AfterAll(s, calls[..i]), calls[i])
  {
    var n := |calls| - 1;
    if i < n {
      ReplyAt(s, calls[..n], i);
      assert calls[..n][..i] == calls[..i];
    }
  }

  /** Two Input calls do what one call with both pieces does, in every state. */
  lemma InputsCompose(s: Session, a: seq<Byte>, b: seq<Byte>)
    ensures AfterInput(AfterInput(s, a), b) == AfterInput(s, a + b)
  {
    assert a == [] ==> a + b == b;
    assert b == [] ==> a + b == a;
    assert s.absorbed + (a + b) == (s.absorbed + a) + b;
  }

  // ---------- A run summarised without running it ----------

  /** The calls since the last Reset. */
  function SinceReset(calls: seq<Call>): seq<Call> {
    if calls == [] then [] else
    var n := |calls| - 1;
    if calls[n].Reset? then [] else SinceReset(calls[..n]) + [calls[n]]
  }

  /** Everything given to Input before the first Result. */
  function Gathered(calls: seq<Call>): seq<Byte> {
    if calls == [] then [] else
    match calls[0]
    case Input(data) => data + Gathered(calls[1..])
    case Result => []
    case Reset => Gathered(calls[1..])
  }

  /** Some octet is given to Input after the first Result. */
  predicate Late(calls: seq<Call>) {
    exists i, j :: 0 <= i < j < |calls| && calls[i].Result? && calls[j].Input? && calls[j].data != []
  }

  predicate Asked(calls: seq<Call>) {
    exists i :: 0 <= i < |calls| && calls[i].Result?
  }

  /** The state a run without Reset must end in. */
  function Summary(calls: seq<Call>): Session {
    var all := Gathered(calls);
    Session(
      Take(all, BYTE_LIMIT),
      |all| < BYTE_LIMIT && Asked(calls),
      if |all| >= BYTE_LIMIT then 1 else if Late(calls) then SHA_STATE_ERROR else 0)
  }

  lemma {:induction false} GatheredOneMore(calls: seq<Call>, call: Call)
    ensures Gathered(calls + [call]) ==
            Gathered(calls) + (if !Asked(calls) && call.Input? then call.data else [])
  {
    if calls == [] {
      assert Gathered([call][1..]) == [];
    } else {
      assert (calls + [call])[1..] == calls[1..] + [call];
      GatheredOneMore(calls[1..], call);
      assert calls == [calls[0]] + calls[1..];
      assert Asked(calls) == (calls[0].Result? || Asked(calls[1..])) by {
        AskedCons(calls);
      }
    }
  }

  lemma AskedCons(calls: seq<Call>)
    requires calls != []
    ensures Asked(calls) == (calls[0].Result? || Asked(calls[1..]))
  {
    if Asked(calls[1..]) {
      var i :| 0 <= i < |calls[1..]| && calls[1..][i].Result?;
      assert calls[i + 1].Result?;
    }
    if Asked(calls) {
      var i :| 0 <= i < |calls| && calls[i].Result?;
      assert i > 0 ==> calls[1..][i - 1].Result?;
    }
  }

  lemma AskedOneMore(calls: seq<Call>, call: Call)
    ensures Asked(calls + [call]) == (Asked(calls) || call.Result?)
    ensures Late(calls + [call]) == (Late(calls) || (Asked(calls) && call.Input? && call.data != []))
  {
    var more := calls + [call];
    assert more[|calls|] == call;
    if Asked(calls) {
      var i :| 0 <= i < |calls| && calls[i].Result?;
      assert more[i].Result?;
    }
    if Late(calls) {
      var i, j :| 0 <= i < j < |calls| && calls[i].Result? && calls[j].Input? && calls[j].data != [];
      assert more[i].Result? && more[j].Input?;
    }
  }

  lemma SummaryStep(calls: seq<Call>, call: Call)
    requires !call.Reset?
    ensures Summary(calls + [call]) == After(Summary(calls), call)
  {
    hide Gathered, Asked, Late;
    GatheredOneMore(calls, call);
    AskedOneMore(calls, call);
    LateNeedsResult(calls);
    var all := Gathered(calls);
    if call.Input? && !Asked(calls) {
      assert Take(Take(all, BYTE_LIMIT) + call.data, BYTE_LIMIT) == Take(all + call.data, BYTE_LIMIT);
      assert all + [] == all;
    } else {
      assert all + [] == all;
    }
  }

  lemma LateNeedsResult(calls: seq<Call>)
    ensures Late(calls) ==> Asked(calls)
  {
  }

  lemma {:induction false} RunIsItsSummary(s: Session, calls: seq<Call>)
    requires exists i :: 0 <= i < |calls| && calls[i].Reset?
    ensures AfterAll(s, calls) == Summary(SinceReset(calls))
  {
    hide Summary, After;
    var n := |calls| - 1;
    if calls[n].Reset? {
      ResetForgets(AfterAll(s, calls[..n]));
    } else {
      var i :| 0 <= i < |calls| && calls[i].Reset?;
      assert calls[..n][i].Reset?;
      RunIsItsSummary(s, calls[..n]);
      SummaryStep(SinceReset(calls[..n]), calls[n]);
    }
  }

  lemma ResetForgets(s: Session)
    ensures After(s, Reset) == Summary([])
  {
  }

  // ---------- What every run guarantees ----------

  /** The reply to any Result after a Reset, in terms of the calls alone: the digest of exactly what
      was gathered before the first Result, unless 2^61 octets or more were gathered (error 1), or
      more octets came after that Result (error 3). */
  lemma ResultIsDecidedByHistory(s: Session, calls: seq<Call>)
    requires exists i :: 0 <= i < |calls| && calls[i].Reset?
    ensures
      var history := SinceReset(calls);
      var reply := ReplyTo(AfterAll(s, calls), Result);
      reply == if |Gathered(history)| >= BYTE_LIMIT then Reply(1, None)
               else if Late(history) then Reply(3, None)
               else Reply(0, Some(Sha1(Gathered(history))))
  {
    hide Gathered, Late, Asked;
    RunIsItsSummary(s, calls);
  }

  /** The reply to an Input that offers some octet, in terms of the calls before it alone. No call
      of any kind is ever answered with the code for input that is too long. */
  lemma InputIsDecidedByHistory(s: Session, calls: seq<Call>, call: Call)
    requires exists i :: 0 <= i < |calls| && calls[i].Reset?
    ensures
      var history := SinceReset(calls);
      var reply := ReplyTo(AfterAll(s, calls), call);
      && reply.code in {0, 1, 3} && reply.code != SHA_INPUT_TOO_LONG
      && (call.Input? && call.data != [] ==>
            reply == Reply(if |Gathered(history)| >= BYTE_LIMIT then 1 else if Asked(history) then 3 else 0, None))
  {
    hide Gathered, Late, Asked;
    RunIsItsSummary(s, calls);
    LateNeedsResult(SinceReset(calls));
  }

  function WithoutEmpty(calls: seq<Call>): seq<Call> {
    if calls == [] then [] else
    var n := |calls| - 1;
    WithoutEmpty(calls[..n]) + (if calls[n] == Input([]) then [] else [calls[n]])
  }

  /** In every run from every state, corrupted ones included, Reset and an Input of no octets
      succeed, and leaving out the latter changes nothing. */
  lemma {:induction false} EmptyInputsNeverMatter(s: Session, calls: seq<Call>)
    ensures AfterAll(s, WithoutEmpty(calls)) == AfterAll(s, calls)
    ensures forall i :: 0 <= i < |calls| && (calls[i] == Input([]) || calls[i].Reset?) ==>
              Replies(s, calls)[i] == Reply(0, None)
  {
    hide ReplyTo;
    if calls != [] {
      var n := |calls| - 1;
      var rest := WithoutEmpty(calls[..n]);
      EmptyInputsNeverMatter(s, calls[..n]);
      EmptyInputSucceeds(AfterAll(s, calls[..n]));
      assert rest + [] == rest;
      assert (rest + [calls[n]])[..|rest|] == rest;
    }
  }

  lemma EmptyInputSucceeds(s: Session)
    ensures ReplyTo(s, Input([])) == Reply(0, None) && After(s, Input([])) == s
    ensures ReplyTo(s, Reset) == Reply(0, None)
  {
  }

  function Concat(chunks: seq<seq<Byte>>): seq<Byte> {
    if chunks == [] then [] else chunks[0] + Concat(chunks[1..])
  }

  function Inputs(chunks: seq<seq<Byte>>): (calls: seq<Call>)
    ensures |calls| == |chunks|
  {
    seq(|chunks|, i requires 0 <= i < |chunks| => Input(chunks[i]))
  }

  lemma {:induction false} InputsGather(chunks: seq<seq<Byte>>)
    ensures Gathered(Inputs(chunks)) == Concat(chunks)
  {
    if chunks != [] {
      assert Inputs(chunks)[1..] == Inputs(chunks[1..]);
      InputsGather(chunks[1..]);
    }
  }

  lemma {:induction false} SinceResetOfRun(calls: seq<Call>)
    requires forall i :: 0 <= i < |calls| ==> !calls[i].Reset?
    ensures SinceReset([Reset] + calls) == calls
  {
    var n := |calls| - 1;
    if calls == [] {
      assert [Reset] + calls == [Reset];
    } else {
      assert ([Reset] + calls)[..n + 1] == [Reset] + calls[..n];
      SinceResetOfRun(calls[..n]);
    }
  }

  /** However a message is cut into Input calls after Reset, Result succeeds exactly when it is
      shorter than 2^61 octets, and then writes the one-shot digest of the whole message. */
  lemma ChunkingNeverMatters(s: Session, chunks: seq<seq<Byte>>)
    ensures
      var reply := ReplyTo(AfterAll(s, [Reset] + Inputs(chunks)), Result);
      reply == if |Concat(chunks)| < BYTE_LIMIT then Reply(SHA_SUCCESS, Some(Sha1(Concat(chunks))))
               else Reply(SHA_NULL, None)
  {
    hide Gathered, Concat, Late, Asked;
    var calls := Inputs(chunks);
    assert ([Reset] + calls)[0].Reset?;
    SinceResetOfRun(calls);
    InputsGather(chunks);
    RunIsItsSummary(s, [Reset] + calls);
    NotLate(calls);
  }

  lemma NotLate(calls: seq<Call>)
    requires forall i :: 0 <= i < |calls| ==> calls[i].Input?
    ensures !Late(calls)
  {
  }

  predicate Idle(call: Call) {
    call.Result? || call == Input([])
  }

  /** After a first successful Result, asking again gives the same digest for as long as no
      octet is offered; offering one is answered with a state error. */
  lemma {:induction false} ResultsAgree(s: Session, calls: seq<Call>, data: seq<Byte>)
    requires s.corrupted == 0 && data != []
    requires forall i :: 0 <= i < |calls| ==> Idle(calls[i])
    ensures
      var first, again := After(s, Result), AfterAll(After(s, Result), calls);
      && again == first
      && ReplyTo(again, Result) == ReplyTo(s, Result)
      && ReplyTo(again, Input(data)) == Reply(SHA_STATE_ERROR, None)
      && After(again, Input(data)).corrupted == SHA_STATE_ERROR
  {
    if calls != [] {
      ResultsAgree(s, calls[..|calls| - 1], data);
    }
  }

  /** Once corrupted, a context takes nothing in and hands out no digest until it is reset. */
  lemma {:induction false} CorruptionIsFinal(s: Session, calls: seq<Call>)
    requires s.corrupted != 0
    requires forall i :: 0 <= i < |calls| ==> !calls[i].Reset?
    ensures
      var later := AfterAll(s, calls);
      && later.corrupted != 0 && later.absorbed == s.absorbed && later.computed == s.computed
      && forall i :: 0 <= i < |calls| && calls[i] != Input([]) ==>
           Replies(s, calls)[i].code != SHA_SUCCESS && Replies(s, calls)[i].digest == None
  {
    if calls != [] {
      CorruptionIsFinal(s, calls[..|calls| - 1]);
    }
  }
}
