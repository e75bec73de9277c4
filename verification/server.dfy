/** The per-connection line protocol of the chat server (`handle_client`).
    The socket, the SQLite database and the clock are replaced by an oracle
    `Env`; the bytes read from the connection arrive already split into the
    lines the handler's `for line in rfile` loop sees. */
module Server {
  import opened Text

  const AckPrefix: string := "Mensaje recibido: "
  // The line written when the insert fails (servidor.py, line 99).
  const StoreError: string := "Error: No se pudo " + "guardar el mensaje " + "en la base de datos."

  /** One row of the `mensajes` table, without the id SQLite assigns. */
  datatype Record = Record(content: string, sentAt: string, clientIp: string)

  /** Everything the handler learns from outside, indexed by insert attempt
      (0 for the first non-empty line of the connection):
      `clock(j)`     the timestamp `datetime.now().isoformat` gives,
      `stored(j)`    the boolean `insert_message` returns,
      `delivered(j)` false when writing or flushing the reply raises. */
  datatype Env = Env(clock: nat -> string, stored: nat -> bool, delivered: nat -> bool)

  /** A reply the handler writes: the acknowledgment quoting the timestamp
      of a stored message, or the fixed error line when the insert failed. */
  datatype Reply = Ack(timestamp: string) | StoreFailed

  /** The records the store gained, the replies written back, and whether
      the handler ended on a failed reply write instead of end of stream. */
  datatype Outcome = Outcome(records: seq<Record>, replies: seq<Reply>, lost: bool)

  /** The reply to one insert attempt, chosen by what the store answered. */
  function ReplyFor(ok: bool, timestamp: string): Reply {
    if ok then Ack(timestamp) else StoreFailed
  }

  /** The text of a reply, without its line terminator: it starts with the
      acknowledgment prefix exactly when it acknowledges a stored message,
      and then the rest of it is the timestamp. */
  function Render(r: Reply): (s: string)
    ensures r.Ack? <==> AckPrefix <= s
    ensures r.Ack? ==> s[|AckPrefix|..] == r.timestamp
  {
    match r
    case Ack(timestamp) => AckPrefix + timestamp
    case StoreFailed => assert StoreError[0] != AckPrefix[0]; StoreError
  }

  /** The replies as the lines written to the connection. */
  function Written(rs: seq<Reply>): (ls: seq<string>)
    ensures |ls| == |rs|
    ensures forall j :: 0 <= j < |ls| ==> ls[j] != [] && ls[j][|ls[j]| - 1] == '\n'
  {
    seq(|rs|, j requires 0 <= j < |rs| => Render(rs[j]) + EOL)
  }

  /** Reference: the contents the handler passes to the store, one per line
      that is not empty once its trailing `\n`/`\r` are removed. */
  function Messages(lines: seq<string>): (ms: seq<string>)
    ensures |ms| <= |lines|
    ensures forall i :: 0 <= i < |ms| ==> ms[i] != [] && !IsTerminator(ms[i][|ms[i]| - 1])
  {
    if lines == [] then []
    else
      var c := RStripTerminators(lines[0]);
      RStripTerminatorsSpec(lines[0]);
      if c == [] then Messages(lines[1..]) else [c] + Messages(lines[1..])
  }

  /** Reference: how many of `n` pending insert attempts, starting with
      attempt `a`, the handler makes: all of them, or up to and including the
      first one whose reply cannot be written. */
  function Attempts(n: nat, env: Env, a: nat): (k: nat)
    ensures k <= n
    decreases n
  {
    if n == 0 then 0
    else if !env.delivered(a) then 1
    else 1 + Attempts(n - 1, env, a + 1)
  }

  /** `Attempts` is determined by two facts: every attempt it counts except
      possibly the last had its reply delivered, and it stops short of `n`
      only on an undelivered reply. */
  lemma {:induction false} AttemptsSpec(n: nat, env: Env, a: nat)
    ensures var k := Attempts(n, env, a);
      && (forall j :: a <= j < a + k - 1 ==> env.delivered(j))
      && (k < n ==> 0 < k && !env.delivered(a + k - 1))
    decreases n
  {
    if n > 0 && env.delivered(a) {
      AttemptsSpec(n - 1, env, a + 1);
    }
  }

  /** Counting again over just the attempts made gives the same count: the
      last one is the one whose reply was lost, or there are no more. */
  lemma {:induction false} AttemptsIdem(n: nat, env: Env, a: nat)
    ensures Attempts(Attempts(n, env, a), env, a) == Attempts(n, env, a)
    decreases n
  {
    if n > 0 && env.delivered(a) {
      AttemptsIdem(n - 1, env, a + 1);
    }
  }

  /** Reference: the records that attempts `a`, `a + 1`, ... on `msgs` add
      to the store, namely one per attempt whose insert succeeded. */
  function Saved(msgs: seq<string>, ip: string, env: Env, a: nat): (rs: seq<Record>)
    ensures |rs| <= |msgs|
    ensures forall r :: r in rs ==> r.clientIp == ip && r.content in msgs
  {
    if msgs == [] then []
    else
      var head := if env.stored(a) then [Record(msgs[0], env.clock(a), ip)] else [];
      head + Saved(msgs[1..], ip, env, a + 1)
  }

  /** The handler's loop from attempt `a` on, over the remaining `lines`. */
  function Serve(lines: seq<string>, ip: string, env: Env, a: nat): (o: Outcome)
    ensures |o.replies| <= |lines|
    ensures |o.records| <= |o.replies| + (if o.lost then 1 else 0)
    decreases |lines|
  {
    if lines == [] then Outcome([], [], false)
    else
      var content := RStripTerminators(lines[0]);
      if content == [] then Serve(lines[1..], ip, env, a)
      else
        var timestamp := env.clock(a);
        var ok := env.stored(a);
        var saved := if ok then [Record(content, timestamp, ip)] else [];
        if !env.delivered(a) then Outcome(saved, [], true)
        else
          var rest := Serve(lines[1..], ip, env, a + 1);
          Outcome(saved + rest.records, [ReplyFor(ok, timestamp)] + rest.replies, rest.lost)
  }

  /** The `j`th reply answers attempt `a + j`: an acknowledgment quoting its
      timestamp when the insert succeeded, the error line otherwise. */
  lemma {:induction false} ServeReplies(lines: seq<string>, ip: string, env: Env, a: nat)
    ensures forall j :: 0 <= j < |Serve(lines, ip, env, a).replies| ==>
      Serve(lines, ip, env, a).replies[j] == ReplyFor(env.stored(a + j), env.clock(a + j))
    decreases |lines|
  {
    if lines != [] {
      if RStripTerminators(lines[0]) == [] {
        ServeReplies(lines[1..], ip, env, a);
      } else if env.delivered(a) {
        var o := Serve(lines, ip, env, a);
        var rest := Serve(lines[1..], ip, env, a + 1);
        ServeReplies(lines[1..], ip, env, a + 1);
        forall j | 1 <= j < |o.replies|
          ensures o.replies[j] == ReplyFor(env.stored(a + j), env.clock(a + j))
        {
          assert o.replies[j] == rest.replies[j - 1];
          assert (a + 1) + (j - 1) == a + j;
        }
      }
    }
  }

  /** Every record comes from this client and holds a non-empty content
      without a trailing line terminator. */
  lemma {:induction false} ServeRecordShape(lines: seq<string>, ip: string, env: Env, a: nat)
    ensures forall r :: r in Serve(lines, ip, env, a).records ==>
      r.clientIp == ip && r.content != [] && !IsTerminator(r.content[|r.content| - 1])
    decreases |lines|
  {
    if lines != [] {
      RStripTerminatorsSpec(lines[0]);
      ServeRecordShape(lines[1..], ip, env, a);
      ServeRecordShape(lines[1..], ip, env, a + 1);
    }
  }

  /** `handle_client` on one connection from `ip` that delivers `lines`. */
  function HandleClient(lines: seq<string>, ip: string, env: Env): (o: Outcome)
    ensures |o.replies| <= |Messages(lines)|
    ensures forall j :: 0 <= j < |o.replies| ==>
      o.replies[j] == ReplyFor(env.stored(j), env.clock(j))
    ensures forall r :: r in o.records ==>
      r.clientIp == ip && r.content != [] && !IsTerminator(r.content[|r.content| - 1])
  {
    ServeProgress(lines, ip, env, 0);
    ServeReplies(lines, ip, env, 0);
    ServeRecordShape(lines, ip, env, 0);
    Serve(lines, ip, env, 0)
  }

  /** The handler matches the reference: it makes `Attempts` insert attempts
      on the non-empty contents in order, keeps exactly the records whose
      insert succeeded, writes one reply per attempt except a failed last
      one, and ends on a lost reply exactly when some attempt's write fails. */
  lemma {:induction false} ServeSpec(lines: seq<string>, ip: string, env: Env, a: nat)
    ensures
      var ms := Messages(lines);
      var k := Attempts(|ms|, env, a);
      var o := Serve(lines, ip, env, a);
      && o.records == Saved(ms[..k], ip, env, a)
      && o.lost == (0 < k && !env.delivered(a + k - 1))
      && |o.replies| == (if o.lost then k - 1 else k)
  {
    ServeProgress(lines, ip, env, a);
    ServeRecords(lines, ip, env, a);
  }

  /** How far the handler gets depends only on which reply writes fail. */
  lemma {:induction false} ServeProgress(lines: seq<string>, ip: string, env: Env, a: nat)
    ensures
      var k := Attempts(|Messages(lines)|, env, a);
      var o := Serve(lines, ip, env, a);
      && o.lost == (0 < k && !env.delivered(a + k - 1))
      && |o.replies| == (if o.lost then k - 1 else k)
    decreases |lines|
  {
    if lines != [] {
      var content := RStripTerminators(lines[0]);
      var ms' := Messages(lines[1..]);
      if content == [] {
        assert Messages(lines) == ms';
        ServeProgress(lines[1..], ip, env, a);
      } else {
        var o := Serve(lines, ip, env, a);
        assert |Messages(lines)| == 1 + |ms'|;
        if env.delivered(a) {
          var rest := Serve(lines[1..], ip, env, a + 1);
          assert o.lost == rest.lost && |o.replies| == 1 + |rest.replies|;
          var k' := Attempts(|ms'|, env, a + 1);
          assert Attempts(|Messages(lines)|, env, a) == 1 + k';
          assert a + (1 + k') - 1 == (a + 1) + k' - 1;
          ServeProgress(lines[1..], ip, env, a + 1);
        } else {
          assert o.lost && o.replies == [];
          assert Attempts(|Messages(lines)|, env, a) == 1;
        }
      }
    }
  }

  /** The handler keeps exactly the records of the attempts it makes whose
      insert succeeds. */
  lemma {:induction false} ServeRecords(lines: seq<string>, ip: string, env: Env, a: nat)
    ensures
      var ms := Messages(lines);
      Serve(lines, ip, env, a).records == Saved(ms[..Attempts(|ms|, env, a)], ip, env, a)
    decreases |lines|
  {
    if lines != [] {
      var content := RStripTerminators(lines[0]);
      if content == [] {
        ServeRecords(lines[1..], ip, env, a);
      } else {
        var ms := Messages(lines);
        var ms' := Messages(lines[1..]);
        var k := Attempts(|ms|, env, a);
        assert ms == [content] + ms';
        if env.delivered(a) {
          ServeRecords(lines[1..], ip, env, a + 1);
          assert ms[..k][1..] == ms'[..k - 1];
        } else {
          assert ms[..k][1..] == [];
        }
      }
    }
  }

  /** `ServeSpec` for a whole connection. */
  lemma HandleClientSpec(lines: seq<string>, ip: string, env: Env)
    ensures
      var ms := Messages(lines);
      var k := Attempts(|ms|, env, 0);
      var o := HandleClient(lines, ip, env);
      && o.records == Saved(ms[..k], ip, env, 0)
      && o.lost == (0 < k && !env.delivered(k - 1))
      && |o.replies| == (if o.lost then k - 1 else k)
  {
    ServeSpec(lines, ip, env, 0);
  }

  /** When no reply write fails, every non-empty line is answered once and
      every successful insert is kept. */
  lemma {:induction false} AllDeliveredSpec(lines: seq<string>, ip: string, env: Env)
    requires forall j :: env.delivered(j)
    ensures
      var o := HandleClient(lines, ip, env);
      && !o.lost
      && |o.replies| == |Messages(lines)|
      && o.records == Saved(Messages(lines), ip, env, 0)
  {
    var ms := Messages(lines);
    HandleClientSpec(lines, ip, env);
    AttemptsSpec(|ms|, env, 0);
    assert ms[..|ms|] == ms;
  }

  /** A line that is empty once `\n` and `\r` are removed is skipped: no
      insert, no reply, and the next line is handled as if it were absent. */
  lemma SkipsEmptyLine(line: string, rest: seq<string>, ip: string, env: Env, a: nat)
    requires RStripTerminators(line) == []
    ensures Serve([line] + rest, ip, env, a) == Serve(rest, ip, env, a)
  {
    assert ([line] + rest)[1..] == rest;
  }

  /** Only terminators are stripped: a line of spaces is stored and answered. */
  lemma SpacesAreStored(spaces: string, terminators: string, ip: string, env: Env)
    requires spaces != [] && forall i :: 0 <= i < |spaces| ==> spaces[i] == ' '
    requires forall i :: 0 <= i < |terminators| ==> IsTerminator(terminators[i])
    requires env.stored(0) && env.delivered(0)
    ensures HandleClient([spaces + terminators], ip, env)
      == Outcome([Record(spaces, env.clock(0), ip)], [Ack(env.clock(0))], false)
  {
    var line := spaces + terminators;
    RStripByAppended(spaces, terminators, IsTerminator);
    assert RStripTerminators(line) == spaces;
    assert [line][1..] == [];
    assert Serve([line], ip, env, 0)
      == Outcome([Record(spaces, env.clock(0), ip)] + [], [Ack(env.clock(0))] + [], false);
  }

  /** An acknowledgment quotes the very timestamp stored with its record: the
      `j`th reply acknowledges exactly when attempt `j` stored the `j`th
      message, and then both carry `clock(j)`. */
  lemma {:induction false} AckMatchesRecord(lines: seq<string>, ip: string, env: Env, j: nat)
    requires j < |HandleClient(lines, ip, env).replies|
    ensures var o := HandleClient(lines, ip, env);
      && j < |Messages(lines)|
      && (env.stored(j) ==>
            o.replies[j] == Ack(env.clock(j))
            && Written(o.replies)[j] == AckPrefix + env.clock(j) + EOL
            && Record(Messages(lines)[j], env.clock(j), ip) in o.records)
      && (!env.stored(j) ==> Written(o.replies)[j] == StoreError + EOL)
  {
    var ms := Messages(lines);
    var o := HandleClient(lines, ip, env);
    HandleClientSpec(lines, ip, env);
    var k := Attempts(|ms|, env, 0);
    if env.stored(j) {
      SavedContains(ms[..k], ip, env, 0, j);
      assert ms[..k][j] == ms[j];
    }
  }

  /** A successful attempt's record is among those `Saved` returns. */
  lemma {:induction false} SavedContains(msgs: seq<string>, ip: string, env: Env, a: nat, j: nat)
    requires a <= j < a + |msgs| && env.stored(j)
    ensures Record(msgs[j - a], env.clock(j), ip) in Saved(msgs, ip, env, a)
    decreases |msgs|
  {
    if j > a {
      SavedContains(msgs[1..], ip, env, a + 1, j);
    }
  }

  /** Store failures do not end the connection: how many replies are
      written, and whether the handler ends on a lost reply, do not depend on
      what the store answers. */
  lemma StoreOutcomeDoesNotAffectProgress(lines: seq<string>, ip: string, env: Env, stored': nat -> bool)
    ensures var o := HandleClient(lines, ip, env);
      var o' := HandleClient(lines, ip, env.(stored := stored'));
      |o'.replies| == |o.replies| && o'.lost == o.lost
  {
    var env' := env.(stored := stored');
    HandleClientSpec(lines, ip, env);
    HandleClientSpec(lines, ip, env');
    AttemptsIgnoresStore(|Messages(lines)|, env, stored', 0);
  }

  lemma {:induction false} AttemptsIgnoresStore(n: nat, env: Env, stored': nat -> bool, a: nat)
    ensures Attempts(n, env.(stored := stored'), a) == Attempts(n, env, a)
    decreases n
  {
    if n > 0 {
      AttemptsIgnoresStore(n - 1, env, stored', a + 1);
    }
  }

  /** Once a reply write fails the handler is over: whatever the client
      would have sent afterwards is neither stored nor answered. */
  lemma {:induction false} NothingAfterLostReply(lines: seq<string>, more: seq<string>, ip: string, env: Env, a: nat)
    requires Serve(lines, ip, env, a).lost
    ensures Serve(lines + more, ip, env, a) == Serve(lines, ip, env, a)
    decreases |lines|
  {
    assert lines != [];
    assert (lines + more)[0] == lines[0];
    assert (lines + more)[1..] == lines[1..] + more;
    var content := RStripTerminators(lines[0]);
    if content == [] {
      NothingAfterLostReply(lines[1..], more, ip, env, a);
    } else if env.delivered(a) {
      NothingAfterLostReply(lines[1..], more, ip, env, a + 1);
    }
  }

  /** Different replies have different texts, so the client can tell an
      acknowledgment from the error line and read the timestamp back. */
  lemma RenderInjective(r1: Reply, r2: Reply)
    requires Render(r1) == Render(r2)
    ensures r1 == r2
  {
  }

  /** Timestamps as `isoformat` renders them never contain a newline. */
  ghost predicate ClockIsSingleLine(env: Env) {
    forall j :: '\n' !in env.clock(j)
  }

  lemma FixedTextsAreSingleLine()
    ensures '\n' !in AckPrefix && '\n' !in StoreError
  {
  }

  /** Every reply is one complete line: its text followed by exactly one
      newline, so the client's `readline` sees the replies one by one. */
  lemma WrittenAreLines(rs: seq<Reply>)
    requires forall j :: 0 <= j < |rs| && rs[j].Ack? ==> '\n' !in rs[j].timestamp
    ensures forall j :: 0 <= j < |rs| ==> IsLine(Written(rs)[j])
  {
    forall j | 0 <= j < |rs|
      ensures IsLine(Written(rs)[j])
    {
      var text := Render(rs[j]);
      FixedTextsAreSingleLine();
      assert '\n' !in text;
      assert Written(rs)[j][..|Written(rs)[j]| - 1] == text;
    }
  }

  /** With a clock that renders single-line timestamps, the handler only
      ever writes complete lines. */
  lemma RepliesAreLines(lines: seq<string>, ip: string, env: Env)
    requires ClockIsSingleLine(env)
    ensures forall j :: 0 <= j < |HandleClient(lines, ip, env).replies| ==>
      IsLine(Written(HandleClient(lines, ip, env).replies)[j])
  {
    WrittenAreLines(HandleClient(lines, ip, env).replies);
  }
}
