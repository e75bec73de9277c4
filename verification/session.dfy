/** One client session against one server connection: the client's console
    lines decide what it writes, the server's handler answers the lines it
    reads, and the client reads those answers back. The two programs share
    nothing but the byte stream in each direction, so each side is modelled
    on the concatenation of what the other wrote, split into lines again. */
module Session {
  import opened Text
  import opened Server
  import opened Client

  /** A connection on which no send breaks the pipe. */
  function NeverBroken(): nat -> bool {
    j => false
  }

  /** `input()` returns lines without their newline. */
  predicate ConsoleLines(inputs: seq<string>) {
    forall i :: 0 <= i < |inputs| ==> '\n' !in inputs[i]
  }

  /** What the server does when the client writes every message the user
      asks to send. */
  function ServerSide(inputs: seq<string>, ip: string, env: Env): Outcome {
    HandleClient(Lines(Intended(inputs)), ip, env)
  }

  /** The client reading the server's replies back off the connection. */
  function ClientSide(inputs: seq<string>, ip: string, env: Env): Trace {
    var o := ServerSide(inputs, ip, env);
    Run(inputs, SplitLines(Concat(Written(o.replies))), NeverBroken())
  }

  /** The messages the user asks to send, as the lines the client writes,
      read back by the server: each line is split off intact and the
      handler passes exactly the message to the store. */
  lemma {:induction false} ServerReadsMessages(ms: seq<string>)
    requires forall i :: 0 <= i < |ms| ==> ms[i] != [] && !IsTerminator(ms[i][|ms[i]| - 1])
    ensures Messages(Lines(ms)) == ms
  {
    if ms != [] {
      RStripByAppended(ms[0], EOL, IsTerminator);
      ServerReadsMessages(ms[1..]);
    }
  }

  /** Lines free of inner newlines survive the byte stream unchanged. */
  lemma LinesSurviveWire(ms: seq<string>)
    requires forall i :: 0 <= i < |ms| ==> '\n' !in ms[i]
    ensures SplitLines(Concat(Lines(ms))) == Lines(ms)
  {
    LinesAt(ms);
    forall i | 0 <= i < |ms|
      ensures IsLine(Lines(ms)[i])
    {
      assert Lines(ms)[i][..|Lines(ms)[i]| - 1] == ms[i];
    }
    SplitConcatLines(Lines(ms));
  }

  /** Each message is written and flushed on its own, so the bytes on the
      wire after `n` messages are the start of the bytes for all of them:
      a client that stops early has sent a prefix of the full stream. */
  lemma WritesAccumulate(ms: seq<string>, n: nat)
    requires n <= |ms|
    ensures Concat(Lines(ms)) == Concat(Lines(ms[..n])) + Concat(Lines(ms[n..]))
  {
    assert ms[..n] + ms[n..] == ms;
    LinesAppend(ms[..n], ms[n..]);
    ConcatAppend(Lines(ms[..n]), Lines(ms[n..]));
  }

  /** The messages the user asks to send are single non-empty lines whose
      last character is not a line terminator. */
  lemma IntendedAreSendable(inputs: seq<string>)
    requires ConsoleLines(inputs)
    ensures var ms := Intended(inputs);
      forall i :: 0 <= i < |ms| ==>
        ms[i] != [] && !IsTerminator(ms[i][|ms[i]| - 1]) && '\n' !in ms[i]
  {
    var ms := Intended(inputs);
    IntendedAreClean(inputs);
    forall i | 0 <= i < |ms|
      ensures ms[i] != [] && !IsTerminator(ms[i][|ms[i]| - 1]) && '\n' !in ms[i]
    {
      var j :| 0 <= j < |inputs| && ms[i] == Strip(inputs[j]);
      StripKeepsChars(inputs[j]);
    }
  }

  /** The replies the server writes reach the client one per `readline`,
      and none of them is empty. */
  lemma RepliesSurviveWire(inputs: seq<string>, ip: string, env: Env)
    requires ClockIsSingleLine(env)
    ensures var rs := Written(ServerSide(inputs, ip, env).replies);
      && SplitLines(Concat(rs)) == rs
      && forall i :: 0 <= i < |rs| ==> rs[i] != []
  {
    var o := ServerSide(inputs, ip, env);
    RepliesAreLines(Lines(Intended(inputs)), ip, env);
    SplitConcatLines(Written(o.replies));
  }

  /** The server's answer to a run of sendable messages: it attempts the
      first `Attempts` of them and writes a reply for each attempt, except
      for the last one when that reply is lost; when nothing is lost every
      message is attempted. */
  lemma ServerAnswers(ms: seq<string>, ip: string, env: Env)
    requires forall i :: 0 <= i < |ms| ==> ms[i] != [] && !IsTerminator(ms[i][|ms[i]| - 1])
    ensures var o := HandleClient(Lines(ms), ip, env);
      var n := Attempts(|ms|, env, 0);
      && (o.lost <==> 0 < n && !env.delivered(n - 1))
      && (o.lost <==> n == |o.replies| + 1)
      && (!o.lost ==> n == |o.replies| == |ms|)
  {
    ServerReadsMessages(ms);
    ServeProgress(Lines(ms), ip, env, 0);
    AttemptsSpec(|ms|, env, 0);
  }

  /** Arithmetic of the exchange: against `replies` written for `n` attempts
      out of `m` messages, the client gets through exactly `n` sends. */
  lemma ReachedIsAttempts(m: nat, replies: seq<string>, n: nat, lost: bool)
    requires forall i :: 0 <= i < |replies| ==> replies[i] != []
    requires n <= m
    requires lost <==> n == |replies| + 1
    requires !lost ==> n == |replies| == m
    ensures Reached(m, replies, NeverBroken(), 0) == n
  {
    ReachedAllAnswered(m, replies, NeverBroken(), 0);
  }

  /** The client gets exactly as far as the server's attempts: it sends the
      first `Attempts` messages the user asked to send. */
  lemma ClientReachesAttempts(inputs: seq<string>, ip: string, env: Env)
    requires ConsoleLines(inputs) && ClockIsSingleLine(env)
    ensures var ms := Intended(inputs);
      var o := ServerSide(inputs, ip, env);
      Reached(|ms|, Written(o.replies), NeverBroken(), 0) == Attempts(|ms|, env, 0)
  {
    var ms := Intended(inputs);
    var o := ServerSide(inputs, ip, env);
    IntendedAreSendable(inputs);
    ServerAnswers(ms, ip, env);
    RepliesSurviveWire(inputs, ip, env);
    ReachedIsAttempts(|ms|, Written(o.replies), Attempts(|ms|, env, 0), o.lost);
  }

  /** What the client reads: the server's replies, and one empty read more
      when the server went away after a lost reply. */
  lemma ReadsAreReplies(rs: seq<string>, n: nat, lost: bool)
    requires lost <==> n == |rs| + 1
    requires !lost ==> n == |rs|
    ensures Reads(rs, 0, n) == rs + (if lost then [""] else [])
  {
    ReadsAt(rs, 0, n);
  }

  /** End to end: the client writes, in order, exactly the messages the
      server attempts to store; it reads one reply per message, namely the
      server's replies in order; and it finds the connection closed (an
      empty read after its last message) exactly when the server lost a
      reply. */
  lemma EachMessageAnsweredOnce(inputs: seq<string>, ip: string, env: Env)
    requires ConsoleLines(inputs) && ClockIsSingleLine(env)
    ensures var ms := Intended(inputs);
      var o := ServerSide(inputs, ip, env);
      var t := ClientSide(inputs, ip, env);
      var n := Attempts(|ms|, env, 0);
      && SentLines(t.events) == Lines(ms[..n])
      && ReceivedReplies(t.events) == Written(o.replies) + (if o.lost then [""] else [])
      && (t.ending == ServerClosed <==> o.lost)
  {
    var ms := Intended(inputs);
    var o := ServerSide(inputs, ip, env);
    var rs := Written(o.replies);
    var n := Attempts(|ms|, env, 0);
    IntendedAreSendable(inputs);
    ServerAnswers(ms, ip, env);
    RepliesSurviveWire(inputs, ip, env);
    ClientReachesAttempts(inputs, ip, env);
    RunSends(inputs, rs, NeverBroken());
    RunEnding(inputs, rs, NeverBroken());
    ReadsAreReplies(rs, n, o.lost);
  }

  /** The exchange is consistent: the server, fed the lines the client
      actually writes, does exactly what `ServerSide` says. */
  lemma ServerSeesWhatClientSends(inputs: seq<string>, ip: string, env: Env)
    requires ConsoleLines(inputs) && ClockIsSingleLine(env)
    ensures var t := ClientSide(inputs, ip, env);
      HandleClient(SplitLines(Concat(SentLines(t.events))), ip, env) == ServerSide(inputs, ip, env)
  {
    var ms := Intended(inputs);
    var n := Attempts(|ms|, env, 0);
    EachMessageAnsweredOnce(inputs, ip, env);
    IntendedAreSendable(inputs);
    LinesSurviveWire(ms[..n]);
    PrefixAnsweredAlike(ms, ip, env);
  }

  /** The server on just the messages it attempts loses a reply exactly
      when it does on all of them. */
  lemma PrefixLostAlike(ms: seq<string>, ip: string, env: Env)
    requires forall i :: 0 <= i < |ms| ==> ms[i] != [] && !IsTerminator(ms[i][|ms[i]| - 1])
    ensures var n := Attempts(|ms|, env, 0);
      HandleClient(Lines(ms[..n]), ip, env).lost == HandleClient(Lines(ms), ip, env).lost
  {
    var n := Attempts(|ms|, env, 0);
    ServerAnswers(ms, ip, env);
    ServerAnswers(ms[..n], ip, env);
    AttemptsIdem(|ms|, env, 0);
  }

  /** The server on just the messages it attempts behaves as on all of them. */
  lemma PrefixAnsweredAlike(ms: seq<string>, ip: string, env: Env)
    requires forall i :: 0 <= i < |ms| ==> ms[i] != [] && !IsTerminator(ms[i][|ms[i]| - 1])
    ensures var n := Attempts(|ms|, env, 0);
      HandleClient(Lines(ms[..n]), ip, env) == HandleClient(Lines(ms), ip, env)
  {
    var n := Attempts(|ms|, env, 0);
    if HandleClient(Lines(ms), ip, env).lost {
      PrefixLostAlike(ms, ip, env);
      var short := Lines(ms[..n]);
      assert Serve(short, ip, env, 0).lost;
      NothingAfterLostReply(short, Lines(ms[n..]), ip, env, 0);
      LinesAppend(ms[..n], ms[n..]);
      assert ms[..n] + ms[n..] == ms;
    } else {
      ServerAnswers(ms, ip, env);
      assert ms[..n] == ms;
    }
  }
}
