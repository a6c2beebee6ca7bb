/** Any client of a hashing context: whatever calls it makes, the object answers as the
    session of those calls does, so every law of Sessions holds of the object. */
module Clients {
  import opened Common
  import opened Words
  import opened Numbers
  import opened Padding
  import opened Sessions
  import opened Contexts
  import opened Refinement
  import Standard

  predicate Callable(calls: seq<Call>) {
    forall i :: 0 <= i < |calls| && calls[i].Input? ==> |calls[i].data| < WORD_LIMIT
  }

  method Perform(context: Sha1Context, call: Call) returns (reply: Reply)
    requires context.Valid()
    requires call.Input? ==> |call.data| < WORD_LIMIT
    modifies context, context.intermediateHash, context.messageBlock
    ensures context.Valid() && context.View() == After(old(context.View()), call)
    ensures reply == ReplyTo(old(context.View()), call)
  {
    hide Sha1, FinalHash, Covers, Zeros;
    match call
    case Reset =>
      var code := context.Reset();
      reply := Reply(code, None);
    case Input(data) =>
      var octets := new Byte[|data|](i requires 0 <= i < |data| => data[i]);
      assert octets[..|data|] == data;
      var code := context.Input(octets, |data|);
      reply := Reply(code, None);
    case Result =>
      var octets := new Byte[20];
      ghost var rest, expected := octets[20..], ReplyTo(context.View(), Result);
      var code := context.Result(octets);
      assert expected.digest.Some? ==> octets[..] == expected.digest.value + rest == expected.digest.value;
      reply := Reply(code, if code == SHA_SUCCESS then Some(octets[..]) else None);
  }

  method Drive(context: Sha1Context, calls: seq<Call>) returns (replies: seq<Reply>)
    requires context.Valid() && Callable(calls)
    modifies context, context.intermediateHash, context.messageBlock
    ensures context.Valid() && context.View() == AfterAll(old(context.View()), calls)
    ensures replies == Replies(old(context.View()), calls)
  {
    hide After, ReplyTo;
    ghost var start := context.View();
    replies := [];
    for i := 0 to |calls|
      invariant context.Valid() && context.View() == AfterAll(start, calls[..i])
      invariant replies == Replies(start, calls[..i])
    {
      assert calls[..i + 1][..i] == calls[..i];
      var reply := Perform(context, calls[i]);
      replies := replies + [reply];
    }
    assert calls[..|calls|] == calls;
  }

  /** A whole message through a context in any state, new ones included: Reset, one Input for each
      piece, Result. The digest written is the one-shot hash of the pieces put together exactly
      when they are shorter than 2^61 octets; from there on error 1 is returned and nothing written. */
  method HashPieces(context: Sha1Context, pieces: seq<seq<Byte>>, messageDigest: array<Byte>) returns (code: int)
    requires context.Shape() && Callable(Inputs(pieces))
    requires messageDigest.Length >= 20 && messageDigest != context.messageBlock
    modifies context, context.intermediateHash, context.messageBlock, messageDigest
    ensures code == 0 <==> |Concat(pieces)| < BYTE_LIMIT
    ensures messageDigest[..] ==
            if code == 0 then Sha1(Concat(pieces)) + old(messageDigest[20..]) else old(messageDigest[..])
    ensures code != 0 ==> code == 1
    ensures code == 0 ==>
              BitsOfOctets(messageDigest[..20]) == Standard.Sha1(BitsOfOctets(Concat(pieces)))
  {
    hide BitsOfOctets, Standard.Sha1, Sha1, After, ReplyTo, Concat, FinalHash, Covers, Zeros, BitLength;
    ghost var digestBefore := messageDigest[..];
    code := context.Reset();
    var _ := Drive(context, Inputs(pieces));
    assert messageDigest[..] == digestBefore;
    ResetThenRun(FRESH, Inputs(pieces));
    ChunkingNeverMatters(FRESH, pieces);
    code := context.Result(messageDigest);
    Sha1IsStandard(Concat(pieces));
  }

  lemma {:induction false} ResetThenRun(s: Session, calls: seq<Call>)
    ensures AfterAll(s, [Reset] + calls) == AfterAll(FRESH, calls)
  {
    var n := |calls| - 1;
    if calls == [] {
      assert [Reset] + calls == [Reset] && [Reset][..0] == [];
    } else {
      assert ([Reset] + calls)[..n + 1] == [Reset] + calls[..n];
      ResetThenRun(s, calls[..n]);
    }
  }
}
