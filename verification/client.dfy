/** The interactive chat client: the exit test `should_exit` and the loop of
    `main` that reads a line from the user, sends it, and waits for one
    reply. Console input arrives as a sequence of lines (its end stands for
    `EOFError` or `KeyboardInterrupt`), the socket's `readline` results as a
    sequence of replies ("" once they run out: the server closed), and a
    failing send as the oracle `broken`, indexed by send attempt. */
module Client {
  import opened Text

  datatype Option<T> = None | Some(value: T)

  const ExitKeywords: set<string> := {"\U{E9}xito", "exito", "exit", "salir"}

  /** `should_exit`: no text at all, or text that, stripped and case-folded,
      is one of the exit keywords. */
  function ShouldExit(texto: Option<string>): (r: bool)
    ensures texto.None? ==> r
    ensures r && texto.Some? ==> 4 <= |Strip(texto.value)| <= 5
  {
    match texto
    case None => true
    case Some(t) => CaseFold(Strip(t)) in ExitKeywords
  }

  /** What happened on the connection, in order. */
  datatype Event = Sent(line: string) | Received(reply: string)

  /** Why the loop ended: an exit keyword, end of console input, a broken
      pipe on send, or an empty `readline` (the server closed). */
  datatype Ending = ExitRequested | InputClosed | PipeBroken | ServerClosed

  datatype Trace = Trace(events: seq<Event>, ending: Ending)

  /** The shape of every conversation: a send, then its read, and so on;
      only the last read may come back empty. */
  predicate Alternates(es: seq<Event>)
    decreases |es|
  {
    || es == []
    || (&& |es| >= 2 && es[0].Sent? && es[1].Received?
        && (es[1].reply == [] ==> |es| == 2)
        && Alternates(es[2..]))
  }

  /** The last read of the conversation found the connection closed. */
  predicate EndsOnHangUp(es: seq<Event>) {
    |es| > 0 && es[|es| - 1].Received? && es[|es| - 1].reply == []
  }

  /** The `k`th `readline` result. */
  function ReadReply(replies: seq<string>, k: nat): string {
    if k < |replies| then replies[k] else ""
  }

  /** What `main` does with one console line: leave on an exit keyword,
      skip it when it strips to nothing, or send the stripped text. */
  datatype Decision = Quit | Skip | Send(mensaje: string)

  function Decide(input: string): (d: Decision)
    ensures d.Send? ==> d.mensaje != [] && IsStripped(d.mensaje) && !ShouldExit(Some(d.mensaje))
  {
    var mensaje := Strip(input);
    if ShouldExit(Some(mensaje)) then Quit
    else if mensaje == [] then Skip
    else Send(mensaje)
  }

  /** The decisions for a run of console lines. */
  function Decisions(inputs: seq<string>): (ds: seq<Decision>)
    ensures |ds| == |inputs|
  {
    seq(|inputs|, i requires 0 <= i < |inputs| => Decide(inputs[i]))
  }

  /** The loop of `main` from its `k`th send on, over the remaining
      decisions. */
  function Loop(ds: seq<Decision>, replies: seq<string>, broken: nat -> bool, k: nat): (t: Trace)
    ensures Alternates(t.events)
    decreases |ds|
  {
    if ds == [] then Trace([], InputClosed)
    else
      match ds[0]
      case Quit => Trace([], ExitRequested)
      case Skip => Loop(ds[1..], replies, broken, k)
      case Send(mensaje) =>
        if broken(k) then Trace([], PipeBroken)
        else
          var respuesta := ReadReply(replies, k);
          if respuesta == [] then Trace([Sent(mensaje + EOL), Received(respuesta)], ServerClosed)
          else
            var rest := Loop(ds[1..], replies, broken, k + 1);
            var events := [Sent(mensaje + EOL), Received(respuesta)] + rest.events;
            assert events[2..] == rest.events;
            Trace(events, rest.ending)
  }

  /** The client session of `main` on the given console lines. */
  function Run(inputs: seq<string>, replies: seq<string>, broken: nat -> bool): (t: Trace)
    ensures Alternates(t.events)
  {
    Loop(Decisions(inputs), replies, broken, 0)
  }

  /** Reference: the texts of the `Send` decisions before the first `Quit`. */
  function Wanted(ds: seq<Decision>): (ms: seq<string>)
    ensures |ms| <= |ds|
  {
    if ds == [] then []
    else
      match ds[0]
      case Quit => []
      case Skip => Wanted(ds[1..])
      case Send(m) => [m] + Wanted(ds[1..])
  }

  /** Reference: the messages the user asks to send, i.e. the stripped,
      non-empty console lines typed before the first exit keyword. */
  function Intended(inputs: seq<string>): seq<string> {
    Wanted(Decisions(inputs))
  }

  /** Reference: how many of `n` intended messages get sent from send `k`
      on: the loop stops before a send that breaks the pipe, and right after
      a send whose reply is empty. */
  function Reached(n: nat, replies: seq<string>, broken: nat -> bool, k: nat): (c: nat)
    ensures c <= n
    decreases n
  {
    if n == 0 || broken(k) then 0
    else if ReadReply(replies, k) == [] then 1
    else 1 + Reached(n - 1, replies, broken, k + 1)
  }

  /** Messages as lines on the wire. */
  function Lines(ms: seq<string>): (ls: seq<string>)
    ensures |ls| == |ms|
  {
    if ms == [] then [] else [ms[0] + EOL] + Lines(ms[1..])
  }

  /** The lines a trace sends. */
  function SentLines(es: seq<Event>): seq<string> {
    if es == [] then []
    else if es[0].Sent? then [es[0].line] + SentLines(es[1..])
    else SentLines(es[1..])
  }

  /** The `readline` results a trace records. */
  function ReceivedReplies(es: seq<Event>): seq<string> {
    if es == [] then []
    else if es[0].Received? then [es[0].reply] + ReceivedReplies(es[1..])
    else ReceivedReplies(es[1..])
  }

  /** The `c` replies read from the `k`th on. */
  function Reads(replies: seq<string>, k: nat, c: nat): (rs: seq<string>)
    ensures |rs| == c
    decreases c
  {
    if c == 0 then [] else [ReadReply(replies, k)] + Reads(replies, k + 1, c - 1)
  }

  /** `Alternates` spelled out by position: sends at even positions, reads
      at odd ones, one read per send, and an empty read only at the end. */
  lemma {:induction false} AlternatesByPosition(es: seq<Event>)
    requires Alternates(es)
    ensures |es| % 2 == 0
    ensures forall i :: 0 <= i < |es| ==> (es[i].Sent? <==> i % 2 == 0)
    ensures forall i :: 0 <= i < |es| - 1 && es[i].Received? ==> es[i].reply != []
    decreases |es|
  {
    if es != [] {
      var rest := es[2..];
      AlternatesByPosition(rest);
      forall i | 2 <= i < |es|
        ensures es[i] == rest[i - 2]
      {
      }
    }
  }

  /** Every message the user asks to send comes from a `Send` decision. */
  lemma {:induction false} WantedAreSent(ds: seq<Decision>)
    ensures forall i :: 0 <= i < |Wanted(ds)| ==> Send(Wanted(ds)[i]) in ds
    decreases |ds|
  {
    if ds != [] && !ds[0].Quit? {
      var w := Wanted(ds);
      var w' := Wanted(ds[1..]);
      WantedAreSent(ds[1..]);
      assert ds == [ds[0]] + ds[1..];
      if ds[0].Send? {
        assert w == [ds[0].mensaje] + w';
        forall i | 1 <= i < |w|
          ensures Send(w[i]) in ds
        {
          assert w[i] == w'[i - 1];
        }
      } else {
        assert w == w';
      }
    }
  }

  /** Every message the user asks to send is the stripped text of one of the
      console lines: non-empty, with no space at either end, and not an exit
      keyword. */
  lemma IntendedAreClean(inputs: seq<string>)
    ensures forall i :: 0 <= i < |Intended(inputs)| ==>
      && (exists j :: 0 <= j < |inputs| && Intended(inputs)[i] == Strip(inputs[j]))
      && Intended(inputs)[i] != [] && IsStripped(Intended(inputs)[i])
      && !ShouldExit(Some(Intended(inputs)[i]))
  {
    var ds := Decisions(inputs);
    WantedAreSent(ds);
    forall i | 0 <= i < |Intended(inputs)|
      ensures && (exists j :: 0 <= j < |inputs| && Intended(inputs)[i] == Strip(inputs[j]))
              && Intended(inputs)[i] != [] && IsStripped(Intended(inputs)[i])
              && !ShouldExit(Some(Intended(inputs)[i]))
    {
      var j :| 0 <= j < |ds| && ds[j] == Send(Intended(inputs)[i]);
      assert Decide(inputs[j]) == Send(Intended(inputs)[i]);
      assert Intended(inputs)[i] == Strip(inputs[j]);
    }
    assert forall i :: 0 <= i < |Intended(inputs)| ==> exists j :: 0 <= j < |inputs| && Intended(inputs)[i] == Strip(inputs[j]);
  }

  lemma SentPrefix(x: string, y: string, es: seq<Event>)
    ensures SentLines([Sent(x), Received(y)] + es) == [x] + SentLines(es)
  {
    var e := [Sent(x), Received(y)] + es;
    assert e[1..][1..] == es;
  }

  lemma ReceivedPrefix(x: string, y: string, es: seq<Event>)
    ensures ReceivedReplies([Sent(x), Received(y)] + es) == [y] + ReceivedReplies(es)
  {
    var e := [Sent(x), Received(y)] + es;
    assert e[1..][1..] == es;
  }

  /** The loop sends, in order, the first `Reached` intended messages, each
      as one line, and reads exactly one reply after each. */
  lemma {:induction false} LoopSends(ds: seq<Decision>, replies: seq<string>, broken: nat -> bool, k: nat)
    ensures var t := Loop(ds, replies, broken, k);
      var ms := Wanted(ds);
      var c := Reached(|ms|, replies, broken, k);
      && SentLines(t.events) == Lines(ms[..c])
      && ReceivedReplies(t.events) == Reads(replies, k, c)
    decreases |ds|
  {
    if ds != [] {
      match ds[0]
      case Quit =>
      case Skip =>
        LoopSends(ds[1..], replies, broken, k);
      case Send(m) =>
        if !broken(k) {
          var respuesta := ReadReply(replies, k);
          var ms := Wanted(ds);
          assert ms == [m] + Wanted(ds[1..]);
          if respuesta == [] {
            SentPrefix(m + EOL, respuesta, []);
            ReceivedPrefix(m + EOL, respuesta, []);
            assert [Sent(m + EOL), Received(respuesta)] + [] == [Sent(m + EOL), Received(respuesta)];
            assert ms[..1] == [m];
          } else {
            var rest := Loop(ds[1..], replies, broken, k + 1);
            LoopSends(ds[1..], replies, broken, k + 1);
            SentPrefix(m + EOL, respuesta, rest.events);
            ReceivedPrefix(m + EOL, respuesta, rest.events);
            var c' := Reached(|ms| - 1, replies, broken, k + 1);
            assert ms[..1 + c'] == [m] + Wanted(ds[1..])[..c'];
          }
        }
    }
  }

  /** `Reached` spelled out: every send but the last one reached got a
      non-empty reply, none of them broke the pipe, and when fewer than `n`
      were reached the last one's reply was empty or the next send broke. */
  lemma {:induction false} ReachedSpec(n: nat, replies: seq<string>, broken: nat -> bool, k: nat)
    ensures var c := Reached(n, replies, broken, k);
      && (forall j :: k <= j < k + c ==> !broken(j))
      && (forall j :: k <= j < k + c - 1 ==> ReadReply(replies, j) != [])
      && (c < n ==> (c > 0 && ReadReply(replies, k + c - 1) == []) || broken(k + c))
    decreases n
  {
    if n > 0 && !broken(k) && ReadReply(replies, k) != [] {
      ReachedSpec(n - 1, replies, broken, k + 1);
    }
  }

  /** The last of `c` replies read from the `k`th on came back empty. */
  predicate HungUp(replies: seq<string>, k: nat, c: nat) {
    c > 0 && ReadReply(replies, k + c - 1) == []
  }

  /** The loop ends on a closed server exactly when the last reply it read
      was empty. */
  lemma {:induction false} LoopClosedEnding(ds: seq<Decision>, replies: seq<string>, broken: nat -> bool, k: nat)
    ensures var c := Reached(|Wanted(ds)|, replies, broken, k);
      Loop(ds, replies, broken, k).ending == ServerClosed <==> HungUp(replies, k, c)
    decreases |ds|
  {
    if ds != [] {
      match ds[0]
      case Quit =>
      case Skip =>
        LoopClosedEnding(ds[1..], replies, broken, k);
      case Send(m) =>
        if !broken(k) && ReadReply(replies, k) != [] {
          SendStep(ds, replies, broken, k);
          var c' := Reached(|Wanted(ds[1..])|, replies, broken, k + 1);
          assert HungUp(replies, k, 1 + c') == HungUp(replies, k + 1, c');
          LoopClosedEnding(ds[1..], replies, broken, k + 1);
        }
    }
  }

  /** Otherwise it ends on a broken pipe exactly when intended messages were
      left unsent. */
  lemma {:induction false} LoopBrokenEnding(ds: seq<Decision>, replies: seq<string>, broken: nat -> bool, k: nat)
    ensures var c := Reached(|Wanted(ds)|, replies, broken, k);
      Loop(ds, replies, broken, k).ending == PipeBroken <==> !HungUp(replies, k, c) && c < |Wanted(ds)|
    decreases |ds|
  {
    if ds != [] {
      match ds[0]
      case Quit =>
      case Skip =>
        LoopBrokenEnding(ds[1..], replies, broken, k);
      case Send(m) =>
        if !broken(k) && ReadReply(replies, k) != [] {
          SendStep(ds, replies, broken, k);
          var c' := Reached(|Wanted(ds[1..])|, replies, broken, k + 1);
          assert HungUp(replies, k, 1 + c') == HungUp(replies, k + 1, c');
          LoopBrokenEnding(ds[1..], replies, broken, k + 1);
        }
    }
  }

  /** Otherwise it ends on the user's request exactly when an exit keyword
      was typed, and at the end of console input when none was. */
  lemma {:induction false} LoopExitEnding(ds: seq<Decision>, replies: seq<string>, broken: nat -> bool, k: nat)
    ensures ExitEndingAt(ds, replies, broken, k)
    decreases |ds|
  {
    if ds != [] && !ds[0].Quit? {
      if ds[0].Skip? {
        LoopExitEnding(ds[1..], replies, broken, k);
        ExitEndingSkip(ds, replies, broken, k);
      } else if !broken(k) && ReadReply(replies, k) != [] {
        LoopExitEnding(ds[1..], replies, broken, k + 1);
        ExitEndingSend(ds, replies, broken, k);
      } else {
        ExitEndingStop(ds, replies, broken, k);
      }
    }
  }

  /** The statement of `LoopExitEnding` for the loop from send `k` on. */
  predicate ExitEndingAt(ds: seq<Decision>, replies: seq<string>, broken: nat -> bool, k: nat) {
    var c := Reached(|Wanted(ds)|, replies, broken, k);
    (Loop(ds, replies, broken, k).ending == ExitRequested)
      <==> (!HungUp(replies, k, c) && c == |Wanted(ds)| && Quit in ds)
  }

  /** An exit keyword is among the decisions after one that is not. */
  lemma QuitInTail(ds: seq<Decision>)
    requires ds != [] && !ds[0].Quit?
    ensures Quit in ds <==> Quit in ds[1..]
  {
    assert ds == [ds[0]] + ds[1..];
  }

  /** `LoopExitEnding` past a skipped line. */
  lemma ExitEndingSkip(ds: seq<Decision>, replies: seq<string>, broken: nat -> bool, k: nat)
    requires ds != [] && ds[0].Skip?
    requires ExitEndingAt(ds[1..], replies, broken, k)
    ensures ExitEndingAt(ds, replies, broken, k)
  {
    QuitInTail(ds);
    assert Loop(ds, replies, broken, k) == Loop(ds[1..], replies, broken, k);
    assert Wanted(ds) == Wanted(ds[1..]);
  }

  /** `LoopExitEnding` past a send that got a non-empty reply. */
  lemma ExitEndingSend(ds: seq<Decision>, replies: seq<string>, broken: nat -> bool, k: nat)
    requires ds != [] && ds[0].Send? && !broken(k) && ReadReply(replies, k) != []
    requires ExitEndingAt(ds[1..], replies, broken, k + 1)
    ensures ExitEndingAt(ds, replies, broken, k)
  {
    QuitInTail(ds);
    SendStep(ds, replies, broken, k);
    var c' := Reached(|Wanted(ds[1..])|, replies, broken, k + 1);
    assert HungUp(replies, k, 1 + c') == HungUp(replies, k + 1, c');
  }

  /** A send that goes through and gets a non-empty reply hands the rest of
      the session to the next decision and the next send. */
  lemma SendStep(ds: seq<Decision>, replies: seq<string>, broken: nat -> bool, k: nat)
    requires ds != [] && ds[0].Send? && !broken(k) && ReadReply(replies, k) != []
    ensures Loop(ds, replies, broken, k).ending == Loop(ds[1..], replies, broken, k + 1).ending
    ensures |Wanted(ds)| == 1 + |Wanted(ds[1..])|
    ensures Reached(|Wanted(ds)|, replies, broken, k) == 1 + Reached(|Wanted(ds[1..])|, replies, broken, k + 1)
  {
  }

  /** `LoopExitEnding` at a send that breaks the pipe or whose reply is
      empty: the loop stops there, not on the user's request. */
  lemma ExitEndingStop(ds: seq<Decision>, replies: seq<string>, broken: nat -> bool, k: nat)
    requires ds != [] && ds[0].Send? && (broken(k) || ReadReply(replies, k) == [])
    ensures ExitEndingAt(ds, replies, broken, k)
  {
    var n' := |Wanted(ds[1..])|;
    assert |Wanted(ds)| == 1 + n';
    if broken(k) {
      assert Loop(ds, replies, broken, k).ending == PipeBroken;
      assert Reached(1 + n', replies, broken, k) == 0;
    } else {
      assert Loop(ds, replies, broken, k).ending == ServerClosed;
      assert HungUp(replies, k, Reached(1 + n', replies, broken, k));
    }
  }

  /** The loop ends on a closed server exactly when its last read came back
      empty. */
  lemma {:induction false} LoopHangUp(ds: seq<Decision>, replies: seq<string>, broken: nat -> bool, k: nat)
    ensures HangUpAt(Loop(ds, replies, broken, k))
    decreases |ds|
  {
    if ds != [] {
      match ds[0]
      case Quit =>
      case Skip =>
        LoopHangUp(ds[1..], replies, broken, k);
      case Send(m) =>
        if !broken(k) && ReadReply(replies, k) != [] {
          LoopHangUp(ds[1..], replies, broken, k + 1);
          HangUpSend(ds, replies, broken, k);
        }
    }
  }

  /** The statement of `LoopHangUp` for one trace. */
  predicate HangUpAt(t: Trace) {
    t.ending == ServerClosed <==> EndsOnHangUp(t.events)
  }

  /** `LoopHangUp` past a send that got a non-empty reply: the trace ends
      as the rest of it does. */
  lemma HangUpSend(ds: seq<Decision>, replies: seq<string>, broken: nat -> bool, k: nat)
    requires ds != [] && ds[0].Send? && !broken(k) && ReadReply(replies, k) != []
    requires HangUpAt(Loop(ds[1..], replies, broken, k + 1))
    ensures HangUpAt(Loop(ds, replies, broken, k))
  {
    var rest := Loop(ds[1..], replies, broken, k + 1);
    var es := [Sent(ds[0].mensaje + EOL), Received(ReadReply(replies, k))] + rest.events;
    assert Loop(ds, replies, broken, k) == Trace(es, rest.ending);
    assert rest.events != [] ==> es[|es| - 1] == rest.events[|rest.events| - 1];
  }

  /** Nothing typed after an exit keyword matters: neither to the loop nor to
      the messages the user asks to send. */
  lemma {:induction false} LoopStopsAtQuit(ds: seq<Decision>, i: nat, replies: seq<string>, broken: nat -> bool, k: nat)
    requires i < |ds| && ds[i] == Quit
    ensures Loop(ds, replies, broken, k) == Loop(ds[..i + 1], replies, broken, k)
    ensures Wanted(ds) == Wanted(ds[..i])
    decreases i
  {
    if i > 0 {
      assert ds[..i + 1][0] == ds[0] && ds[..i][0] == ds[0];
      assert ds[..i + 1][1..] == ds[1..][..i];
      assert ds[..i][1..] == ds[1..][..i - 1];
      LoopStopsAtQuit(ds[1..], i - 1, replies, broken, k);
      LoopStopsAtQuit(ds[1..], i - 1, replies, broken, k + 1);
    }
  }

  /** A line that strips to nothing is as if it had not been typed. */
  lemma {:induction false} LoopSkipsBlank(ds: seq<Decision>, i: nat, replies: seq<string>, broken: nat -> bool, k: nat)
    requires i < |ds| && ds[i] == Skip
    ensures Loop(ds, replies, broken, k) == Loop(ds[..i] + ds[i + 1..], replies, broken, k)
    ensures Wanted(ds) == Wanted(ds[..i] + ds[i + 1..])
    decreases i
  {
    var ds' := ds[..i] + ds[i + 1..];
    if i == 0 {
      assert ds' == ds[1..];
    } else {
      assert ds'[0] == ds[0];
      assert ds'[1..] == ds[1..][..i - 1] + ds[1..][i..];
      LoopSkipsBlank(ds[1..], i - 1, replies, broken, k);
      LoopSkipsBlank(ds[1..], i - 1, replies, broken, k + 1);
    }
  }

  /** `should_exit` ignores whitespace around its argument. */
  lemma ShouldExitIgnoresSpace(s: string)
    ensures ShouldExit(Some(Strip(s))) == ShouldExit(Some(s))
  {
    StripIdempotent(s);
  }

  /** An exit keyword, in any case the folding maps onto it and with any
      whitespace around it, ends the session. */
  lemma ExitKeywordRecognised(a: string, u: string, b: string)
    requires AllSpace(a) && AllSpace(b)
    requires CaseFold(u) in ExitKeywords
    ensures ShouldExit(Some(a + u + b))
  {
    var f := CaseFold(u);
    FoldKeepsSpace(u[0]);
    FoldKeepsSpace(u[|u| - 1]);
    assert !IsSpace(f[0]) && !IsSpace(f[|f| - 1]);
    StripPadded(a, u, b);
  }

  /** Conversely, `should_exit` holds of a text only when it is an exit
      keyword, up to folding, with whitespace around it. */
  lemma ShouldExitSound(s: string) returns (a: string, u: string, b: string)
    requires ShouldExit(Some(s))
    ensures s == a + u + b
    ensures AllSpace(a) && AllSpace(b)
    ensures CaseFold(u) in ExitKeywords
  {
    var k := StripIsInfix(s);
    u := Strip(s);
    a := s[..k];
    b := s[k + |u|..];
  }

  /** `"EXIT"` folds onto a keyword, and `" salir "` is one once stripped. */
  lemma ShouldExitOnKeywords()
    ensures ShouldExit(Some("EXIT"))
    ensures ShouldExit(Some(" salir "))
  {
    assert CaseFold("EXIT") == "exit";
    ExitKeywordRecognised("", "EXIT", "");
    assert "" + "EXIT" + "" == "EXIT";
    assert CaseFold("salir") == "salir";
    ExitKeywordRecognised(" ", "salir", " ");
    assert " " + "salir" + " " == " salir ";
  }

  /** Neither the empty text nor an ordinary word ends the session. */
  lemma ShouldExitOnOthers()
    ensures !ShouldExit(Some(""))
    ensures !ShouldExit(Some("hola"))
  {
    assert Strip("") == [];
    assert CaseFold("") == [];
    StripFixedPoints("hola");
    assert CaseFold("hola") == "hola";
  }

  /** The decisions for a prefix of the console lines are a prefix of the
      decisions. */
  lemma DecisionsPrefix(inputs: seq<string>, n: nat)
    requires n <= |inputs|
    ensures Decisions(inputs[..n]) == Decisions(inputs)[..n]
  {
  }

  /** The client sends, in order and one line each, the first `Reached`
      messages the user asked to send, and reads one reply after each. */
  lemma RunSends(inputs: seq<string>, replies: seq<string>, broken: nat -> bool)
    ensures var t := Run(inputs, replies, broken);
      var ms := Intended(inputs);
      var c := Reached(|ms|, replies, broken, 0);
      && SentLines(t.events) == Lines(ms[..c])
      && ReceivedReplies(t.events) == Reads(replies, 0, c)
  {
    LoopSends(Decisions(inputs), replies, broken, 0);
  }

  /** Why the client stops: the server closed exactly when its last read came
      back empty; otherwise the pipe broke exactly when messages were left
      unsent; otherwise the user typed an exit keyword exactly when one of
      the console lines is one, and the console input ended when none is. */
  lemma RunEnding(inputs: seq<string>, replies: seq<string>, broken: nat -> bool)
    ensures var t := Run(inputs, replies, broken);
      var c := Reached(|Intended(inputs)|, replies, broken, 0);
      && (t.ending == ServerClosed <==> HungUp(replies, 0, c))
      && (t.ending == ServerClosed <==> EndsOnHangUp(t.events))
      && (t.ending == PipeBroken <==> !HungUp(replies, 0, c) && c < |Intended(inputs)|)
      && (t.ending == ExitRequested <==>
            && !HungUp(replies, 0, c) && c == |Intended(inputs)|
            && exists i :: 0 <= i < |inputs| && ShouldExit(Some(Strip(inputs[i]))))
  {
    var ds := Decisions(inputs);
    LoopClosedEnding(ds, replies, broken, 0);
    LoopHangUp(ds, replies, broken, 0);
    LoopBrokenEnding(ds, replies, broken, 0);
    LoopExitEnding(ds, replies, broken, 0);
    if exists i :: 0 <= i < |inputs| && ShouldExit(Some(Strip(inputs[i]))) {
      var i :| 0 <= i < |inputs| && ShouldExit(Some(Strip(inputs[i])));
      assert ds[i] == Quit;
    }
    if Quit in ds {
      var i :| 0 <= i < |ds| && ds[i] == Quit;
      assert ShouldExit(Some(Strip(inputs[i])));
    }
  }

  /** Nothing typed after an exit keyword matters. */
  lemma ExitIgnoresRest(inputs: seq<string>, i: nat, replies: seq<string>, broken: nat -> bool)
    requires i < |inputs| && ShouldExit(Some(Strip(inputs[i])))
    ensures Run(inputs, replies, broken) == Run(inputs[..i + 1], replies, broken)
    ensures Intended(inputs) == Intended(inputs[..i])
  {
    var ds := Decisions(inputs);
    assert ds[i] == Quit;
    LoopStopsAtQuit(ds, i, replies, broken, 0);
    DecisionsPrefix(inputs, i + 1);
    DecisionsPrefix(inputs, i);
  }

  /** A console line that strips to nothing is skipped. */
  lemma BlankIsSkipped(input: string)
    requires Strip(input) == []
    ensures Decide(input) == Skip
  {
    assert CaseFold([]) == [];
  }

  /** The decision for a console line in terms of the line itself: leave
      exactly on an exit keyword, skip exactly a line that strips to
      nothing, and otherwise send exactly the stripped text. */
  lemma DecideSpec(input: string)
    ensures Decide(input) == Quit <==> ShouldExit(Some(input))
    ensures Decide(input) == Skip <==> Strip(input) == []
    ensures Decide(input).Send? <==> Strip(input) != [] && !ShouldExit(Some(input))
    ensures Decide(input).Send? ==> Decide(input).mensaje == Strip(input)
  {
    ShouldExitIgnoresSpace(input);
    if Strip(input) == [] {
      BlankIsSkipped(input);
    }
  }

  /** The messages the user asks to send, one console line at a time: an
      exit keyword ends them, a blank line adds nothing, and any other line
      adds its stripped text in front of those of the lines after it. */
  lemma IntendedStep(x: string, rest: seq<string>)
    ensures Intended([x] + rest) ==
      if ShouldExit(Some(x)) then []
      else if Strip(x) == [] then Intended(rest)
      else [Strip(x)] + Intended(rest)
  {
    DecideSpec(x);
    assert Decisions([x] + rest) == [Decide(x)] + Decisions(rest);
  }

  /** Removing a console line removes its decision. */
  lemma DecisionsRemove(inputs: seq<string>, i: nat)
    requires i < |inputs|
    ensures Decisions(inputs[..i] + inputs[i + 1..]) == Decisions(inputs)[..i] + Decisions(inputs)[i + 1..]
  {
  }

  /** A console line that strips to nothing is as if it had not been typed. */
  lemma BlankLineIgnored(inputs: seq<string>, i: nat, replies: seq<string>, broken: nat -> bool)
    requires i < |inputs| && Strip(inputs[i]) == []
    ensures Run(inputs, replies, broken) == Run(inputs[..i] + inputs[i + 1..], replies, broken)
    ensures Intended(inputs) == Intended(inputs[..i] + inputs[i + 1..])
  {
    BlankIsSkipped(inputs[i]);
    LoopSkipsBlank(Decisions(inputs), i, replies, broken, 0);
    DecisionsRemove(inputs, i);
  }

  lemma {:induction false} LinesAt(ms: seq<string>)
    ensures forall i :: 0 <= i < |ms| ==> Lines(ms)[i] == ms[i] + EOL
  {
    if ms != [] {
      LinesAt(ms[1..]);
      forall i | 1 <= i < |ms|
        ensures Lines(ms)[i] == ms[i] + EOL
      {
        assert Lines(ms)[i] == Lines(ms[1..])[i - 1];
      }
    }
  }

  lemma {:induction false} LinesAppend(a: seq<string>, b: seq<string>)
    ensures Lines(a + b) == Lines(a) + Lines(b)
  {
    if a != [] {
      assert (a + b)[0] == a[0];
      assert (a + b)[1..] == a[1..] + b;
      LinesAppend(a[1..], b);
      assert Lines(a + b) == [a[0] + EOL] + (Lines(a[1..]) + Lines(b));
    } else {
      assert a + b == b;
    }
  }

  lemma {:induction false} ReadsAt(replies: seq<string>, k: nat, c: nat)
    ensures forall i :: 0 <= i < c ==> Reads(replies, k, c)[i] == ReadReply(replies, k + i)
    decreases c
  {
    if c > 0 {
      ReadsAt(replies, k + 1, c - 1);
      forall i | 1 <= i < c
        ensures Reads(replies, k, c)[i] == ReadReply(replies, k + i)
      {
        assert Reads(replies, k, c)[i] == Reads(replies, k + 1, c - 1)[i - 1];
      }
    }
  }

  /** Against a server that answers every line with a non-empty reply and
      then closes, and with no broken pipe, the client reaches one message
      more than there are replies, or all of them if they are fewer. */
  lemma {:induction false} ReachedAllAnswered(n: nat, replies: seq<string>, broken: nat -> bool, k: nat)
    requires forall j :: !broken(j)
    requires forall i :: 0 <= i < |replies| ==> replies[i] != []
    requires k <= |replies|
    ensures Reached(n, replies, broken, k) == if n <= |replies| - k + 1 then n else |replies| - k + 1
    decreases n
  {
    if n > 0 && k < |replies| {
      ReachedAllAnswered(n - 1, replies, broken, k + 1);
    }
  }
}
