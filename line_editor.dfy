/** The serial console of `task2`: a 128-byte command buffer edited one
    received byte at a time. An ESC/CSI recogniser handles the parameterless
    cursor movements `ESC [ D` and `ESC [ C` (ECMA-48, sections 8.3.18 and
    8.3.20); printable bytes are inserted at the cursor, Backspace and DEL
    delete before it, and Enter splits the line into a command word and its
    arguments. Everything the loop echoes through `UART::write` is appended
    to `echo`; each `handleCmd` call is appended to `calls`. */
module LineEditor {
  import opened Machine
  import UartRing

  const CMD_BUF_SIZE: nat := 128
  /** `rx_buf`, the chunk `task2` reads the receive ring into. */
  const RX_BUF_SIZE: nat := 32

  const ESC: u8 := 0x1B
  const LBRACKET: u8 := 0x5B
  const FINAL_LEFT: u8 := 0x44   // 'D'
  const FINAL_RIGHT: u8 := 0x43  // 'C'
  const CR: u8 := 0x0D
  const LF: u8 := 0x0A
  const BS: u8 := 0x08
  const DEL: u8 := 0x7F
  const SPACE: u8 := 0x20

  const CURSOR_LEFT: seq<u8> := [ESC, LBRACKET, FINAL_LEFT]
  const CURSOR_RIGHT: seq<u8> := [ESC, LBRACKET, FINAL_RIGHT]
  const PROMPT: seq<u8> := [0x24, SPACE]   // "$ "
  const NEWLINE: seq<u8> := [LF]
  const RUBOUT: seq<u8> := [BS, SPACE, BS]   // "\b \b"

  predicate Printable(b: u8) { 0x20 <= b <= 0x7E }

  predicate AllPrintable(s: seq<u8>) { forall i :: 0 <= i < |s| ==> Printable(s[i]) }

  function Spaces(n: nat): (s: seq<u8>)
    ensures |s| == n && forall i :: 0 <= i < n ==> s[i] == SPACE
  {
    seq(n, _ => SPACE)
  }

  /** `k` copies of `s`. */
  function Repeat(s: seq<u8>, k: nat): (r: seq<u8>)
    ensures |r| == k * |s|
  {
    if k == 0 then [] else Repeat(s, k - 1) + s
  }

  // ---------------------------------------------------------------------
  // Splitting a finished line

  /** A `handleCmd(cmd, args)` call; `None` is a null `args`. */
  datatype Command = Command(name: seq<u8>, args: Option<seq<u8>>)

  /** The first index at or after `i` that does not hold a space. */
  function SkipSpaces(s: seq<u8>, i: nat): (j: nat)
    requires i <= |s|
    ensures i <= j <= |s|
    ensures forall k :: i <= k < j ==> s[k] == SPACE
    ensures j < |s| ==> s[j] != SPACE
    decreases |s| - i
  {
    if i == |s| || s[i] != SPACE then i else SkipSpaces(s, i + 1)
  }

  /** The first index at or after `i` that holds a space. */
  function WordEnd(s: seq<u8>, i: nat): (j: nat)
    requires i <= |s|
    ensures i <= j <= |s|
    ensures forall k :: i <= k < j ==> s[k] != SPACE
    ensures j < |s| ==> s[j] == SPACE
    decreases |s| - i
  {
    if i == |s| || s[i] == SPACE then i else WordEnd(s, i + 1)
  }

  /** How the Enter branch splits the text of the line. */
  function Split(s: seq<u8>): (c: Command)
    ensures c.args.Some? ==> |c.name| + |c.args.value| < |s|
  {
    var start := SkipSpaces(s, 0);
    var end := WordEnd(s, start);
    if end == |s| then Command(s[start..end], None)
    else
      var argStart := SkipSpaces(s, end + 1);
      Command(s[start..end], if argStart == |s| then None else Some(s[argStart..]))
  }

  /** The command word has no space in it; it is empty exactly when the
      line is blank, and then there are no arguments either. Arguments, when
      present, are not empty and do not start with a space. */
  lemma SplitTrims(s: seq<u8>)
    ensures var c := Split(s);
      && (forall i :: 0 <= i < |c.name| ==> c.name[i] != SPACE)
      && (c.name == [] <==> forall i :: 0 <= i < |s| ==> s[i] == SPACE)
      && (c.name == [] ==> c.args == None)
      && (c.args.Some? ==> c.args.value != [] && c.args.value[0] != SPACE)
  {
    var start := SkipSpaces(s, 0);
    var end := WordEnd(s, start);
    if start < |s| {
      assert s[start..end][0] == s[start];
    }
  }

  /** The line is leading spaces, the command word, and then either only
      spaces (no arguments) or one space, more spaces and the arguments:
      nothing is lost but spaces. */
  lemma SplitReassembles(s: seq<u8>) returns (lead: nat, gap: nat)
    ensures var c := Split(s);
      s == Spaces(lead) + c.name
           + (if c.args.Some? then [SPACE] + Spaces(gap) + c.args.value else Spaces(gap))
  {
    var c := Split(s);
    var start := SkipSpaces(s, 0);
    var end := WordEnd(s, start);
    lead := start;
    assert c.name == s[start..end];
    if c.args.None? {
      gap := |s| - end;
      assert end == |s| || SkipSpaces(s, end + 1) == |s|;
      RejoinWithoutArgs(s, start, end);
    } else {
      var argStart := SkipSpaces(s, end + 1);
      gap := argStart - end - 1;
      assert c.args.value == s[argStart..];
      RejoinWithArgs(s, start, end, argStart);
    }
  }

  lemma RejoinWithoutArgs(s: seq<u8>, start: nat, end: nat)
    requires start <= end <= |s|
    requires forall k :: 0 <= k < start ==> s[k] == SPACE
    requires forall k :: end <= k < |s| ==> s[k] == SPACE
    ensures s == Spaces(start) + s[start..end] + Spaces(|s| - end)
  {
    SpacesSlice(s, 0, start);
    SpacesSlice(s, end, |s|);
    assert s == s[..start] + s[start..end] + s[end..];
  }

  lemma RejoinWithArgs(s: seq<u8>, start: nat, end: nat, argStart: nat)
    requires start <= end < argStart <= |s|
    requires forall k :: 0 <= k < start ==> s[k] == SPACE
    requires s[end] == SPACE && forall k :: end + 1 <= k < argStart ==> s[k] == SPACE
    ensures s == Spaces(start) + s[start..end] + ([SPACE] + Spaces(argStart - end - 1) + s[argStart..])
  {
    SpacesSlice(s, 0, start);
    SpacesSlice(s, end + 1, argStart);
    assert s == s[..start] + s[start..end] + ([s[end]] + s[end + 1..argStart] + s[argStart..]);
  }

  /** A stretch of spaces is `Spaces` of its length. */
  lemma SpacesSlice(s: seq<u8>, i: nat, j: nat)
    requires i <= j <= |s| && forall k :: i <= k < j ==> s[k] == SPACE
    ensures s[i..j] == Spaces(j - i)
  {
  }

  // ---------------------------------------------------------------------
  // One received byte

  datatype EscState = Normal | Escape | Csi

  /** The editor's variables: `cmd_buf[0..cmd_pos)`, `cursor` and `state`. */
  datatype Line = Line(text: seq<u8>, cursor: nat, esc: EscState)

  predicate WellFormed(e: Line)
  {
    e.cursor <= |e.text| <= CMD_BUF_SIZE - 1 && AllPrintable(e.text)
  }

  const EMPTY_LINE := Line([], 0, Normal)

  /** What one byte does: the new line, the bytes echoed, and the command
      dispatched, if any. */
  datatype Reaction = Reaction(line: Line, echo: seq<u8>, call: Option<Command>)

  function Step(e: Line, c: u8): (r: Reaction)
    requires WellFormed(e)
    ensures WellFormed(r.line)
  {
    match e.esc
    case Escape =>
      Reaction(e.(esc := if c == LBRACKET then Csi else Normal), [], None)
    case Csi =>
      if c == FINAL_LEFT && e.cursor > 0 then
        Reaction(Line(e.text, e.cursor - 1, Normal), CURSOR_LEFT, None)
      else if c == FINAL_RIGHT && e.cursor < |e.text| then
        Reaction(Line(e.text, e.cursor + 1, Normal), CURSOR_RIGHT, None)
      else Reaction(e.(esc := Normal), [], None)
    case Normal =>
      if c == ESC then Reaction(e.(esc := Escape), [], None)
      else if c == CR || c == LF then
        var command := Split(e.text);
        Reaction(EMPTY_LINE, NEWLINE + PROMPT, if command.name != [] then Some(command) else None)
      else if c == DEL || c == BS then
        if e.cursor > 0 then
          var text := e.text[..e.cursor - 1] + e.text[e.cursor..];
          var cursor := e.cursor - 1;
          Reaction(Line(text, cursor, Normal),
                   RUBOUT + text[cursor..] + [SPACE] + Repeat(CURSOR_LEFT, |text| - cursor + 1), None)
        else Reaction(e, [], None)
      else if |e.text| < CMD_BUF_SIZE - 1 && Printable(c) then
        var text := e.text[..e.cursor] + [c] + e.text[e.cursor..];
        var cursor := e.cursor + 1;
        Reaction(Line(text, cursor, Normal),
                 [c] + text[cursor..] + Repeat(CURSOR_LEFT, |text| - cursor), None)
      else Reaction(e, [], None)
  }

  /** ESC opens a sequence, `[` after it makes it a control sequence, and
      any other byte after ESC is dropped; none of these touch the text. */
  lemma EscapeSequencesOpen(e: Line, c: u8)
    requires WellFormed(e)
    ensures e.esc == Normal && c == ESC ==>
      Step(e, c) == Reaction(e.(esc := Escape), [], None)
    ensures e.esc == Escape ==>
      Step(e, c).line == e.(esc := if c == LBRACKET then Csi else Normal)
      && Step(e, c).echo == [] && Step(e, c).call == None
  {
  }

  /** Inside a control sequence, `D` moves the cursor left unless it is at
      the start, `C` moves it right unless it is at the end, and every
      byte ends the sequence with the text untouched. */
  lemma ControlSequenceMovesCursor(e: Line, c: u8)
    requires WellFormed(e) && e.esc == Csi
    ensures Step(e, c).line.text == e.text && Step(e, c).line.esc == Normal
    ensures Step(e, c).line.cursor ==
      if c == FINAL_LEFT && e.cursor > 0 then e.cursor - 1
      else if c == FINAL_RIGHT && e.cursor < |e.text| then e.cursor + 1
      else e.cursor
  {
  }

  /** A printable byte with room to spare is inserted at the cursor, and
      the cursor moves past it. */
  lemma PrintableInsertsAtCursor(e: Line, c: u8)
    requires WellFormed(e) && e.esc == Normal && Printable(c) && |e.text| < CMD_BUF_SIZE - 1
    ensures Step(e, c).line == Line(e.text[..e.cursor] + [c] + e.text[e.cursor..], e.cursor + 1, Normal)
  {
  }

  /** Backspace and DEL delete the byte before the cursor; at the start of
      the line they do nothing. */
  lemma RubOutDeletesBeforeCursor(e: Line, c: u8)
    requires WellFormed(e) && e.esc == Normal && (c == BS || c == DEL)
    ensures e.cursor > 0 ==>
      Step(e, c).line == Line(e.text[..e.cursor - 1] + e.text[e.cursor..], e.cursor - 1, Normal)
    ensures e.cursor == 0 ==> Step(e, c) == Reaction(e, [], None)
  {
  }

  /** The insertion step written out, for the method that implements it. */
  lemma InsertStep(e: Line, c: u8)
    requires WellFormed(e) && e.esc == Normal && Printable(c) && |e.text| < CMD_BUF_SIZE - 1
    ensures var text := e.text[..e.cursor] + [c] + e.text[e.cursor..];
      Step(e, c) == Reaction(Line(text, e.cursor + 1, Normal),
                             [c] + text[e.cursor + 1..] + Repeat(CURSOR_LEFT, |text| - e.cursor - 1), None)
  {
  }

  /** The deletion step written out, for the method that implements it. */
  lemma RubOutStep(e: Line, c: u8)
    requires WellFormed(e) && e.esc == Normal && (c == BS || c == DEL) && e.cursor > 0
    ensures var text := e.text[..e.cursor - 1] + e.text[e.cursor..];
      Step(e, c) == Reaction(Line(text, e.cursor - 1, Normal),
                             RUBOUT + (text[e.cursor - 1..] + [SPACE] + Repeat(CURSOR_LEFT, |text| - e.cursor + 2)), None)
  {
  }

  /** Typing a byte and then rubbing it out gives back the line as it was. */
  lemma RubOutUndoesInsert(e: Line, c: u8)
    requires WellFormed(e) && e.esc == Normal && Printable(c) && |e.text| < CMD_BUF_SIZE - 1
    ensures Step(Step(e, c).line, DEL).line == e
  {
    var t := e.text[..e.cursor] + [c] + e.text[e.cursor..];
    assert t[..e.cursor] + t[e.cursor + 1..] == e.text;
  }

  /** Enter empties the line and dispatches the split command exactly when
      its word is not empty. */
  lemma EnterDispatchesCommand(e: Line, c: u8)
    requires WellFormed(e) && e.esc == Normal && (c == CR || c == LF)
    ensures Step(e, c).line == EMPTY_LINE
    ensures Step(e, c).call.Some? <==> Split(e.text).name != []
    ensures Step(e, c).call.Some? ==> Step(e, c).call.value == Split(e.text)
  {
  }

  /** A full line, a control byte or any other byte outside a sequence
      leaves the line as it is and echoes nothing. */
  lemma OtherBytesAreIgnored(e: Line, c: u8)
    requires WellFormed(e) && e.esc == Normal
    requires c != ESC && c != CR && c != LF && c != BS && c != DEL
    requires !Printable(c) || |e.text| == CMD_BUF_SIZE - 1
    ensures Step(e, c) == Reaction(e, [], None)
  {
  }

  // ---------------------------------------------------------------------
  // A run of bytes

  /** The editor together with everything it has sent and dispatched. */
  datatype Session = Session(line: Line, echo: seq<u8>, calls: seq<Command>)

  function CallLog(call: Option<Command>): seq<Command>
  {
    if call.Some? then [call.value] else []
  }

  function Consume(s: Session, c: u8): (s': Session)
    requires WellFormed(s.line)
    ensures WellFormed(s'.line) && s.echo <= s'.echo && s.calls <= s'.calls
  {
    var r := Step(s.line, c);
    Session(r.line, s.echo + r.echo, s.calls + CallLog(r.call))
  }

  /** The bytes `bs`, oldest first, fed one at a time. */
  function ConsumeAll(s: Session, bs: seq<u8>): (s': Session)
    requires WellFormed(s.line)
    ensures WellFormed(s'.line) && s.echo <= s'.echo && s.calls <= s'.calls
  {
    if bs == [] then s else Consume(ConsumeAll(s, bs[..|bs| - 1]), bs[|bs| - 1])
  }

  /** The left-arrow sequence moves the cursor one place left and is
      echoed as it came. */
  lemma ArrowLeftMovesCursor(s: Session)
    requires WellFormed(s.line) && s.line.esc == Normal && s.line.cursor > 0
    ensures ConsumeAll(s, CURSOR_LEFT) ==
      Session(s.line.(cursor := s.line.cursor - 1), s.echo + CURSOR_LEFT, s.calls)
  {
    var e := s.line;
    var s2 := Session(e.(esc := Csi), s.echo, s.calls);
    EnterControlSequence(s);
    assert Step(s2.line, FINAL_LEFT) == Reaction(e.(cursor := e.cursor - 1), CURSOR_LEFT, None);
    assert [ESC, LBRACKET] + [FINAL_LEFT] == CURSOR_LEFT;
    ConsumeSnoc(s, [ESC, LBRACKET], FINAL_LEFT);
    assert s2.calls + CallLog(None) == s.calls;
  }

  /** The right-arrow sequence moves the cursor one place right and is
      echoed as it came. */
  lemma ArrowRightMovesCursor(s: Session)
    requires WellFormed(s.line) && s.line.esc == Normal && s.line.cursor < |s.line.text|
    ensures ConsumeAll(s, CURSOR_RIGHT) ==
      Session(s.line.(cursor := s.line.cursor + 1), s.echo + CURSOR_RIGHT, s.calls)
  {
    var e := s.line;
    var s2 := Session(e.(esc := Csi), s.echo, s.calls);
    EnterControlSequence(s);
    assert Step(s2.line, FINAL_RIGHT) == Reaction(e.(cursor := e.cursor + 1), CURSOR_RIGHT, None);
    assert [ESC, LBRACKET] + [FINAL_RIGHT] == CURSOR_RIGHT;
    ConsumeSnoc(s, [ESC, LBRACKET], FINAL_RIGHT);
    assert s2.calls + CallLog(None) == s.calls;
  }

  /** ESC then `[` opens a control sequence, silently. */
  lemma EnterControlSequence(s: Session)
    requires WellFormed(s.line) && s.line.esc == Normal
    ensures ConsumeAll(s, [ESC, LBRACKET]) == Session(s.line.(esc := Csi), s.echo, s.calls)
  {
    var e := s.line;
    EscapeSequencesOpen(e, ESC);
    EscapeSequencesOpen(e.(esc := Escape), LBRACKET);
    assert s.echo + [] == s.echo && s.calls + CallLog(None) == s.calls;
    assert ConsumeAll(s, []) == s;
    assert [] + [ESC] == [ESC] && [ESC] + [LBRACKET] == [ESC, LBRACKET];
    ConsumeSnoc(s, [], ESC);
    ConsumeSnoc(s, [ESC], LBRACKET);
  }

  /** Left then right comes back to the same place. */
  lemma LeftThenRightRestoresCursor(s: Session)
    requires WellFormed(s.line) && s.line.esc == Normal && s.line.cursor > 0
    ensures ConsumeAll(s, CURSOR_LEFT + CURSOR_RIGHT).line == s.line
  {
    ConsumeAllAppend(s, CURSOR_LEFT, CURSOR_RIGHT);
    ArrowLeftMovesCursor(s);
    ArrowRightMovesCursor(ConsumeAll(s, CURSOR_LEFT));
  }

  lemma ConsumeSnoc(s: Session, bs: seq<u8>, b: u8)
    requires WellFormed(s.line)
    ensures ConsumeAll(s, bs + [b]) == Consume(ConsumeAll(s, bs), b)
  {
    assert (bs + [b])[..|bs|] == bs;
  }

  lemma {:induction false} ConsumeAllAppend(s: Session, a: seq<u8>, b: seq<u8>)
    requires WellFormed(s.line)
    ensures ConsumeAll(s, a + b) == ConsumeAll(ConsumeAll(s, a), b)
    decreases |b|
  {
    if b == [] {
      assert a + b == a;
    } else {
      assert (a + b)[..|a + b| - 1] == a + b[..|b| - 1];
      ConsumeAllAppend(s, a, b[..|b| - 1]);
    }
  }

  // ---------------------------------------------------------------------
  // What the echo draws on the terminal

  /** A terminal line that interprets the echoed bytes: printable bytes
      overwrite at the cursor column, BS and `ESC [ D` move left (not past
      the first column), `ESC [ C` moves right, and LF starts a new empty
      line. */
  datatype Terminal = Terminal(screen: seq<u8>, col: nat, esc: EscState)

  /** `b` written at `col`; columns past the end of the line read as
      blanks. */
  function Put(screen: seq<u8>, col: nat, b: u8): (r: seq<u8>)
    ensures |r| == if col < |screen| then |screen| else col + 1
    ensures r[col] == b
    ensures forall i :: 0 <= i < |r| && i != col ==> r[i] == if i < |screen| then screen[i] else SPACE
  {
    if col < |screen| then screen[col := b] else screen + Spaces(col - |screen|) + [b]
  }

  function Emit(t: Terminal, b: u8): Terminal
  {
    match t.esc
    case Escape => t.(esc := if b == LBRACKET then Csi else Normal)
    case Csi =>
      if b == FINAL_LEFT then t.(col := if t.col > 0 then t.col - 1 else 0, esc := Normal)
      else if b == FINAL_RIGHT then t.(col := t.col + 1, esc := Normal)
      else t.(esc := Normal)
    case Normal =>
      if b == ESC then t.(esc := Escape)
      else if b == LF then Terminal([], 0, Normal)
      else if b == BS then t.(col := if t.col > 0 then t.col - 1 else 0)
      else if Printable(b) then Terminal(Put(t.screen, t.col, b), t.col + 1, Normal)
      else t
  }

  function EmitAll(t: Terminal, bs: seq<u8>): Terminal
    decreases |bs|
  {
    if bs == [] then t else EmitAll(Emit(t, bs[0]), bs[1..])
  }

  /** What the terminal line should read for `e`. */
  function Expected(e: Line): seq<u8> { PROMPT + e.text }

  /** The terminal shows the prompt and the text with nothing but blanks
      after it, and its cursor sits on the editor's cursor. */
  predicate Shows(t: Terminal, e: Line)
  {
    && t.esc == Normal
    && t.col == |PROMPT| + e.cursor
    && |Expected(e)| <= |t.screen|
    && forall i :: 0 <= i < |t.screen| ==>
         t.screen[i] == if i < |Expected(e)| then Expected(e)[i] else SPACE
  }

  lemma {:induction false} EmitAllAppend(t: Terminal, a: seq<u8>, b: seq<u8>)
    ensures EmitAll(t, a + b) == EmitAll(EmitAll(t, a), b)
    decreases |a|
  {
    if a == [] {
      assert a + b == b;
    } else {
      assert (a + b)[0] == a[0];
      assert (a + b)[1..] == a[1..] + b;
      EmitAllAppend(Emit(t, a[0]), a[1..], b);
    }
  }

  lemma EmitThree(t: Terminal, x: u8, y: u8, z: u8)
    ensures EmitAll(t, [x, y, z]) == Emit(Emit(Emit(t, x), y), z)
  {
    var t1 := Emit(t, x);
    var t2 := Emit(t1, y);
    assert [z][1..] == [];
    assert EmitAll(t2, [z]) == EmitAll(Emit(t2, z), []);
    assert [y, z][1..] == [z];
    assert EmitAll(t1, [y, z]) == EmitAll(t2, [z]);
    assert [x, y, z][1..] == [y, z];
  }

  /** Printable text is written in place from the cursor, which ends up
      just past it. */
  lemma {:induction false} WriteInPlace(t: Terminal, s: seq<u8>)
    requires t.esc == Normal && t.col <= |t.screen| && AllPrintable(s)
    ensures EmitAll(t, s).esc == Normal && EmitAll(t, s).col == t.col + |s|
    ensures |EmitAll(t, s).screen| == Max(|t.screen|, t.col + |s|)
    ensures forall i :: 0 <= i < |EmitAll(t, s).screen| ==>
      EmitAll(t, s).screen[i] == if t.col <= i < t.col + |s| then s[i - t.col] else t.screen[i]
    decreases |s|
  {
    if s != [] {
      var t1 := Emit(t, s[0]);
      assert AllPrintable(s[1..]) by {
        forall i | 0 <= i < |s[1..]| ensures Printable(s[1..][i]) { assert s[1..][i] == s[i + 1]; }
      }
      WriteInPlace(t1, s[1..]);
      var t' := EmitAll(t1, s[1..]);
      forall i | 0 <= i < |t'.screen|
        ensures t'.screen[i] == if t.col <= i < t.col + |s| then s[i - t.col] else t.screen[i]
      {
        if t.col < i < t.col + |s| {
          assert s[1..][i - t1.col] == s[i - t.col];
        }
      }
    }
  }

  /** `k` cursor-left sequences move the cursor `k` columns left. */
  lemma {:induction false} MoveLeft(t: Terminal, k: nat)
    requires t.esc == Normal && k <= t.col
    ensures EmitAll(t, Repeat(CURSOR_LEFT, k)) == t.(col := t.col - k)
  {
    if k > 0 {
      MoveLeft(t, k - 1);
      EmitAllAppend(t, Repeat(CURSOR_LEFT, k - 1), CURSOR_LEFT);
      EmitThree(t.(col := t.col - (k - 1)), ESC, LBRACKET, FINAL_LEFT);
    }
  }

  lemma InsertEchoShowsLine(t: Terminal, e: Line, c: u8)
    requires WellFormed(e) && Shows(t, e) && e.esc == Normal
    requires Printable(c) && |e.text| < CMD_BUF_SIZE - 1
    ensures Shows(EmitAll(t, Step(e, c).echo), Step(e, c).line)
  {
    var text := e.text[..e.cursor] + [c] + e.text[e.cursor..];
    var tail := text[e.cursor..];
    var back := Repeat(CURSOR_LEFT, |text| - e.cursor - 1);
    InsertStep(e, c);
    var r := Step(e, c);
    assert [c] + text[e.cursor + 1..] == tail;
    assert r.echo == tail + back && r.line.text == text;
    var t1 := EmitAll(t, tail);
    InsertRedrawsTail(t, e, c);
    assert t1.col == |PROMPT| + |text| && Shows(t1.(col := |PROMPT| + r.line.cursor), r.line);
    EmitAllAppend(t, tail, back);
    MoveLeft(t1, |text| - e.cursor - 1);
    assert EmitAll(t, r.echo) == t1.(col := |PROMPT| + r.line.cursor);
  }

  /** Writing the text from the cursor on after an insertion leaves the
      new line on the screen, with the cursor at the end of the text. */
  lemma InsertRedrawsTail(t: Terminal, e: Line, c: u8)
    requires WellFormed(e) && Shows(t, e) && e.esc == Normal
    requires Printable(c) && |e.text| < CMD_BUF_SIZE - 1
    ensures var line := Step(e, c).line;
            var t1 := EmitAll(t, line.text[e.cursor..]);
            t1.col == |PROMPT| + |line.text| && Shows(t1.(col := |PROMPT| + line.cursor), line)
  {
    InsertStep(e, c);
    var line := Step(e, c).line;
    var text := line.text;
    var p := |PROMPT|;
    var tail := text[e.cursor..];
    assert AllPrintable(tail) by {
      forall i | 0 <= i < |tail| ensures Printable(tail[i]) {
        if i > 0 { assert tail[i] == e.text[e.cursor + i - 1]; }
      }
    }
    WriteInPlace(t, tail);
    var t1 := EmitAll(t, tail);
    forall i | 0 <= i < |t1.screen|
      ensures t1.screen[i] == if i < |Expected(line)| then Expected(line)[i] else SPACE
    {
      if i < p + e.cursor {
        assert Expected(e)[i] == Expected(line)[i];
      } else if i >= p + |text| {
        assert t1.screen[i] == t.screen[i];
      }
    }
  }

  /** `"\b \b"` blanks the column left of the cursor and leaves the
      cursor on it. */
  lemma RubOutBlanks(t: Terminal)
    requires t.esc == Normal && 0 < t.col <= |t.screen|
    ensures EmitAll(t, RUBOUT) == Terminal(t.screen[t.col - 1 := SPACE], t.col - 1, Normal)
  {
    EmitThree(t, BS, SPACE, BS);
  }

  /** The redraw after a deletion: blank the deleted column, rewrite the
      rest of the line and a blank over the old last byte, and move back. */
  lemma RubOutRedraw(t: Terminal, e: Line, text: seq<u8>, cursor: nat)
    requires WellFormed(e) && Shows(t, e) && e.cursor > 0
    requires cursor == e.cursor - 1 && text == e.text[..cursor] + e.text[e.cursor..]
    ensures Shows(EmitAll(t, RUBOUT + (text[cursor..] + [SPACE] + Repeat(CURSOR_LEFT, |text| - cursor + 1))),
                  Line(text, cursor, Normal))
  {
    var p := |PROMPT|;
    var tail := text[cursor..] + [SPACE];
    var back := Repeat(CURSOR_LEFT, |text| - cursor + 1);
    EmitAllAppend(t, RUBOUT, tail + back);
    RubOutBlanks(t);
    var t1 := EmitAll(t, RUBOUT);
    EmitAllAppend(t1, tail, back);
    assert AllPrintable(tail) by {
      forall i | 0 <= i < |tail| ensures Printable(tail[i]) {
        if i < |tail| - 1 { assert tail[i] == e.text[e.cursor + i]; }
      }
    }
    WriteInPlace(t1, tail);
    var t2 := EmitAll(t1, tail);
    MoveLeft(t2, |text| - cursor + 1);
    forall i | 0 <= i < |t2.screen|
      ensures t2.screen[i] == if i < p + |text| then (PROMPT + text)[i] else SPACE
    {
      if i < p + cursor {
        assert Expected(e)[i] == (PROMPT + text)[i];
      } else if i > p + |text| {
        assert t2.screen[i] == t.screen[i];
      }
    }
  }

  lemma RubOutEchoShowsLine(t: Terminal, e: Line, c: u8)
    requires WellFormed(e) && Shows(t, e) && e.esc == Normal
    requires (c == BS || c == DEL) && e.cursor > 0
    ensures Shows(EmitAll(t, Step(e, c).echo), Step(e, c).line)
  {
    var cursor := e.cursor - 1;
    var text := e.text[..cursor] + e.text[e.cursor..];
    RubOutStep(e, c);
    RubOutRedraw(t, e, text, cursor);
  }

  /** The echo keeps the terminal in step with the editor: whatever byte
      arrives, the terminal afterwards shows the prompt and the new text,
      with its cursor where the editor's cursor is. */
  lemma EchoKeepsTerminalInStep(t: Terminal, e: Line, c: u8)
    requires WellFormed(e) && Shows(t, e)
    ensures Shows(EmitAll(t, Step(e, c).echo), Step(e, c).line)
  {
    var r := Step(e, c);
    if e.esc == Csi {
      if c == FINAL_LEFT && e.cursor > 0 {
        EmitThree(t, ESC, LBRACKET, FINAL_LEFT);
      } else if c == FINAL_RIGHT && e.cursor < |e.text| {
        EmitThree(t, ESC, LBRACKET, FINAL_RIGHT);
      }
    } else if e.esc == Normal && c != ESC {
      if c == CR || c == LF {
        GreetingShowsEmptyLine(t);
      } else if c == DEL || c == BS {
        if e.cursor > 0 {
          RubOutEchoShowsLine(t, e, c);
        }
      } else if |e.text| < CMD_BUF_SIZE - 1 && Printable(c) {
        InsertEchoShowsLine(t, e, c);
      }
    }
  }

  /** What `task2` prints before its loop starts, and after each Enter: a
      new line and the prompt, which is exactly an empty line on the
      terminal. */
  lemma GreetingShowsEmptyLine(t: Terminal)
    requires t.esc == Normal
    ensures Shows(EmitAll(t, NEWLINE + PROMPT), EMPTY_LINE)
  {
    assert NEWLINE + PROMPT == [LF, 0x24, SPACE];
    EmitThree(t, LF, 0x24, SPACE);
    assert Put([], 0, 0x24) == [0x24];
  }

  /** Over any run of bytes, the terminal fed the whole echo shows the
      editor's line. */
  lemma {:induction false} EchoTracksLine(t: Terminal, s: Session, bs: seq<u8>)
    requires WellFormed(s.line) && Shows(EmitAll(t, s.echo), s.line)
    ensures Shows(EmitAll(t, ConsumeAll(s, bs).echo), ConsumeAll(s, bs).line)
    decreases |bs|
  {
    if bs != [] {
      var mid := ConsumeAll(s, bs[..|bs| - 1]);
      EchoTracksLine(t, s, bs[..|bs| - 1]);
      var r := Step(mid.line, bs[|bs| - 1]);
      EmitAllAppend(t, mid.echo, r.echo);
      EchoKeepsTerminalInStep(EmitAll(t, mid.echo), mid.line, bs[|bs| - 1]);
    }
  }

  // ---------------------------------------------------------------------
  // The receive chunk

  /** How many bytes `task2` asks `read` for when `available` are waiting:
      as written it asks for all of them. */
  function RequestAsWritten(available: nat): (n: nat)
    ensures UartRing.ReadCount(n, available) == available
  {
    available
  }

  /** Corrected request: at most what `rx_buf` holds with the terminating
      NUL that `read` stores after the copied bytes. */
  function Request(available: nat): (n: nat)
    ensures n <= available && n < RX_BUF_SIZE
    ensures available < RX_BUF_SIZE ==> n == available
  {
    Min(available, RX_BUF_SIZE - 1)
  }

  /** As written, 32 or more waiting bytes (the receive ring holds up to
      1023) make `task2`'s call `read(available, rx_buf)` break `read`'s
      demand on its destination: the count `read` promises to copy, which
      is also where it promises to store the NUL, lies past the end of the
      32-byte `rx_buf`. */
  lemma RequestAsWrittenOverrunsRxBuf(buffered: nat)
    requires RX_BUF_SIZE <= buffered < UartRing.RING_SIZE
    ensures !UartRing.ReadFits(RX_BUF_SIZE, RequestAsWritten(buffered))
    ensures UartRing.ReadCount(RequestAsWritten(buffered), buffered) >= RX_BUF_SIZE
  {
  }

  /** The corrected request always meets `read`'s demand on `rx_buf`, and
      drains the ring whenever fewer than 32 bytes wait. */
  lemma RequestFitsRxBuf(buffered: nat)
    ensures UartRing.ReadFits(RX_BUF_SIZE, Request(buffered))
    ensures UartRing.ReadCount(Request(buffered), buffered) < RX_BUF_SIZE
    ensures buffered < RX_BUF_SIZE ==> UartRing.ReadCount(Request(buffered), buffered) == buffered
  {
  }

  // ---------------------------------------------------------------------
  // The loops of `task2`

  /** `for (j = from; j + 1 < len; ++j) a[j] = a[j + 1];` */
  method ShiftLeft(a: array<u8>, from: nat, len: nat)
    requires from < len <= a.Length
    modifies a
    ensures a[..len - 1] == old(a[..from]) + old(a[from + 1..len])
    ensures a[len - 1..] == old(a[len - 1..])
  {
    var j := from;
    while j + 1 < len
      invariant from <= j < len
      invariant forall k :: 0 <= k < from ==> a[k] == old(a[k])
      invariant forall k :: from <= k < j ==> a[k] == old(a[k + 1])
      invariant forall k :: j <= k < a.Length ==> a[k] == old(a[k])
    {
      a[j] := a[j + 1];
      j := j + 1;
    }
    assert a[..len - 1] == old(a[..from]) + old(a[from + 1..len]) by {
      forall k | 0 <= k < len - 1
        ensures a[k] == (old(a[..from]) + old(a[from + 1..len]))[k]
      {
        if k >= from { assert old(a[from + 1..len])[k - from] == old(a[k + 1]); }
      }
    }
  }

  /** `for (j = len; j > to; --j) a[j] = a[j - 1];` */
  method ShiftRight(a: array<u8>, to: nat, len: nat)
    requires to <= len < a.Length
    modifies a
    ensures a[..to + 1] == old(a[..to + 1])
    ensures a[to + 1..len + 1] == old(a[to..len])
    ensures a[len + 1..] == old(a[len + 1..])
  {
    var j := len;
    while j > to
      invariant to <= j <= len
      invariant forall k :: 0 <= k <= j ==> a[k] == old(a[k])
      invariant forall k :: j < k <= len ==> a[k] == old(a[k - 1])
      invariant forall k :: len < k < a.Length ==> a[k] == old(a[k])
    {
      a[j] := a[j - 1];
      j := j - 1;
    }
    assert a[to + 1..len + 1] == old(a[to..len]) by {
      forall k | 0 <= k < len - to
        ensures a[to + 1..len + 1][k] == old(a[to..len])[k]
      {
        assert a[to + 1 + k] == old(a[to + k]);
      }
    }
  }

  /** `while (*p == ' ') p++;` over a NUL-terminated buffer. */
  method SkipSpacesIn(a: array<u8>, i: nat, len: nat) returns (j: nat)
    requires i <= len < a.Length && a[len] == 0
    ensures j == SkipSpaces(a[..len], i)
  {
    j := i;
    while a[j] == SPACE
      invariant i <= j <= len
      invariant SkipSpaces(a[..len], j) == SkipSpaces(a[..len], i)
      decreases len - j
    {
      j := j + 1;
    }
  }

  /** `while (*p && *p != ' ') p++;` over a NUL-terminated buffer. */
  method WordEndIn(a: array<u8>, i: nat, len: nat) returns (j: nat)
    requires i <= len < a.Length && a[len] == 0
    ensures j == WordEnd(a[..len], i) || (j < len && a[j] == 0)
    ensures i <= j <= len
  {
    j := i;
    while a[j] != 0 && a[j] != SPACE
      invariant i <= j <= len
      invariant WordEnd(a[..len], j) == WordEnd(a[..len], i)
      decreases len - j
    {
      j := j + 1;
    }
  }

  /** The shift loop of the insertion branch followed by the store of the
      new byte. */
  method InsertAt(a: array<u8>, at: nat, len: nat, c: u8)
    requires at <= len < a.Length
    modifies a
    ensures a[..len + 1] == old(a[..at]) + [c] + old(a[at..len])
  {
    ghost var text := a[..len];
    ghost var inserted := text[..at] + [c] + text[at..];
    ShiftRight(a, at, len);
    a[at] := c;
    forall k | 0 <= k <= len ensures a[k] == inserted[k] {
      if k > at { assert a[k] == a[at + 1..len + 1][k - at - 1]; }
      if k < at { assert a[k] == a[..at + 1][k]; }
    }
    assert a[..len + 1] == inserted;
  }

  /** The Enter branch's split, on the NUL-terminated buffer: skip leading
      spaces, find the end of the word, cut the string there and skip the
      spaces before the arguments. */
  method SplitLine(a: array<u8>, len: nat) returns (command: Command)
    requires len < a.Length && AllPrintable(a[..len])
    modifies a
    ensures command == Split(old(a[..len]))
  {
    ghost var s := a[..len];
    a[len] := 0;
    assert a[..len] == s;
    var cmd := SkipSpacesIn(a, 0, len);
    var space := WordEndIn(a, cmd, len);
    if space < len { assert a[space] == s[space] && Printable(s[space]); }
    var name := a[cmd..space];
    assert cmd <= space <= len && a[..len] == s;
    assert a[cmd..space] == a[..len][cmd..space];
    assert name == s[cmd..space];
    var args: Option<seq<u8>> := None;
    if a[space] != 0 {
      assert space < len && space == WordEnd(s, cmd);
      a[space] := 0;
      assert a[space + 1..len] == s[space + 1..];
      args := ArgsAfter(a, space, len, s);
    }
    command := Command(name, args);
  }

  /** The arguments half of the split: skip the spaces after the cut and
      take the rest of the line, if any is left. */
  method ArgsAfter(a: array<u8>, space: nat, len: nat, ghost s: seq<u8>) returns (args: Option<seq<u8>>)
    requires space < len < a.Length && a[len] == 0
    requires |s| == len && AllPrintable(s) && a[space + 1..len] == s[space + 1..]
    ensures var argStart := SkipSpaces(s, space + 1);
      args == if argStart == len then None else Some(s[argStart..])
  {
    ArgsOf(a, space, len, s);
    var arg := SkipSpacesIn(a, space + 1, len);
    args := None;
    if arg < len { assert a[arg] == s[arg] && Printable(s[arg]); }
    if a[arg] != 0 {
      assert a[arg..len] == s[arg..];
      args := Some(a[arg..len]);
    }
  }

  /** Cutting the string at the space does not change what follows it. */
  lemma ArgsOf(a: array<u8>, space: nat, len: nat, s: seq<u8>)
    requires space < len < a.Length && |s| == len && a[space + 1..len] == s[space + 1..]
    ensures forall i :: space + 1 <= i <= len ==>
      SkipSpaces(a[..len], i) == SkipSpaces(s, i)
    ensures forall i :: space + 1 <= i < len ==> a[i] == s[i]
  {
    forall i | space + 1 <= i < len ensures a[i] == s[i] {
      assert a[i] == a[space + 1..len][i - space - 1];
    }
    forall i | space + 1 <= i <= len ensures SkipSpaces(a[..len], i) == SkipSpaces(s, i) {
      SkipSpacesAgree(a[..len], s, i, space + 1);
    }
  }

  lemma {:induction false} SkipSpacesAgree(s: seq<u8>, t: seq<u8>, i: nat, from: nat)
    requires |s| == |t| && from <= i <= |s|
    requires forall k :: from <= k < |s| ==> s[k] == t[k]
    ensures SkipSpaces(s, i) == SkipSpaces(t, i)
    decreases |s| - i
  {
    if i < |s| {
      SkipSpacesAgree(s, t, i + 1, from);
    }
  }

  /** `for (j = 0; j < k; ++j) UART::write(3, "\x1B[D");` */
  method MoveBack(k: nat) returns (out: seq<u8>)
    ensures out == Repeat(CURSOR_LEFT, k)
  {
    out := [];
    var j := 0;
    while j < k
      invariant j <= k && out == Repeat(CURSOR_LEFT, j)
    {
      out := out + CURSOR_LEFT;
      j := j + 1;
    }
  }

  /** The variables of `task2` and what it has sent and dispatched. */
  class Editor {
    const cmdBuf: array<u8>
    var cmdPos: nat
    var cursor: nat
    var esc: EscState
    var echo: seq<u8>
    var calls: seq<Command>

    ghost predicate Valid()
      reads this, cmdBuf
    {
      cmdBuf.Length == CMD_BUF_SIZE && cmdPos < CMD_BUF_SIZE
      && WellFormed(Line(cmdBuf[..cmdPos], cursor, esc))
    }

    ghost function State(): Session
      reads this, cmdBuf
      requires cmdPos <= cmdBuf.Length
    {
      Session(Line(cmdBuf[..cmdPos], cursor, esc), echo, calls)
    }

    /** The start of `task2`: an empty line, and the greeting printed. */
    constructor ()
      ensures Valid() && fresh(cmdBuf)
      ensures State() == Session(EMPTY_LINE, NEWLINE + PROMPT, [])
    {
      cmdBuf := new u8[CMD_BUF_SIZE](_ => 0);
      cmdPos, cursor, esc := 0, 0, Normal;
      echo := NEWLINE + PROMPT;
      calls := [];
    }

    /** One pass of the body of `task2`'s `for` loop, for the byte `c`. */
    method Feed(c: u8)
      requires Valid()
      modifies this`cmdPos, this`cursor, this`esc, this`echo, this`calls, cmdBuf
      ensures Valid()
      ensures State() == Consume(old(State()), c)
    {
      if esc == Normal {
        if c == ESC {
          esc := Escape;
          return;
        }
      } else if esc == Escape {
        if c == LBRACKET {
          esc := Csi;
          return;
        } else {
          esc := Normal;
          return;
        }
      } else {
        ControlByte(c);
        return;
      }

      if c == CR || c == LF {
        Enter(c);
      } else if c == DEL || c == BS {
        RubOut(c);
      } else if cmdPos < CMD_BUF_SIZE - 1 && Printable(c) {
        Insert(c);
      }
    }

    /** The final byte of a control sequence. */
    method ControlByte(c: u8)
      requires Valid() && esc == Csi
      modifies this`cursor, this`esc, this`echo
      ensures Valid()
      ensures State() == Consume(old(State()), c)
    {
      if c == FINAL_LEFT {
        if cursor > 0 {
          echo := echo + CURSOR_LEFT;
          cursor := cursor - 1;
        }
      } else if c == FINAL_RIGHT {
        if cursor < cmdPos {
          echo := echo + CURSOR_RIGHT;
          cursor := cursor + 1;
        }
      }
      esc := Normal;
    }

    /** CR or LF: dispatch the line and start a new one. */
    method Enter(c: u8)
      requires Valid() && esc == Normal && (c == CR || c == LF)
      modifies this`cmdPos, this`cursor, this`echo, this`calls, cmdBuf
      ensures Valid()
      ensures State() == Consume(old(State()), c)
    {
      ghost var s0 := State();
      ghost var r := Step(s0.line, c);
      echo := echo + NEWLINE;
      var command := SplitLine(cmdBuf, cmdPos);
      assert r.call == if command.name != [] then Some(command) else None;
      if command.name != [] {
        calls := calls + [command];
      }
      cmdPos := 0;
      cursor := 0;
      echo := echo + PROMPT;
      assert State() == Session(r.line, s0.echo + r.echo, s0.calls + CallLog(r.call));
    }

    /** Backspace or DEL: delete before the cursor and redraw the rest of
        the line. */
    method RubOut(c: u8)
      requires Valid() && esc == Normal && (c == DEL || c == BS)
      modifies this`cmdPos, this`cursor, this`echo, cmdBuf
      ensures Valid()
      ensures State() == Consume(old(State()), c)
    {
      if cursor > 0 {
        ghost var s0 := State();
        ghost var r := Step(s0.line, c);
        RubOutStep(s0.line, c);
        DeleteBeforeCursor();
        RedrawAfterRubOut();
        assert State() == Session(r.line, s0.echo + r.echo, s0.calls + CallLog(r.call));
      }
    }

    /** The echo half of a rub-out: `"\b \b"`, the rest of the line, a
        space over the stale last column, and the cursor walked back. */
    method RedrawAfterRubOut()
      requires Valid()
      modifies this`echo
      ensures Valid()
      ensures echo == old(echo) + (RUBOUT + (cmdBuf[cursor..cmdPos] + [SPACE]
                                   + Repeat(CURSOR_LEFT, cmdPos + 1 - cursor)))
    {
      var rest := cmdBuf[cursor..cmdPos];
      var back := MoveBack(cmdPos + 1 - cursor);
      echo := echo + (RUBOUT + (rest + [SPACE] + back));
    }

    /** The buffer half of a rub-out: the shift loop that closes the gap
        before the cursor, and the two decrements. */
    method DeleteBeforeCursor()
      requires Valid() && esc == Normal && cursor > 0
      modifies this`cmdPos, this`cursor, cmdBuf
      ensures Valid() && cursor == old(cursor) - 1 && cmdPos == old(cmdPos) - 1
      ensures cmdBuf[..cmdPos] == old(cmdBuf[..cursor - 1]) + old(cmdBuf[cursor..cmdPos])
    {
      ghost var text := cmdBuf[..cmdPos];
      ghost var shorter := text[..cursor - 1] + text[cursor..];
      assert text[..cursor - 1] == cmdBuf[..cursor - 1] && text[cursor..] == cmdBuf[cursor..cmdPos];
      assert AllPrintable(shorter) by {
        forall i | 0 <= i < |shorter| ensures Printable(shorter[i]) {
          if i >= cursor - 1 { assert shorter[i] == text[i + 1]; }
        }
      }
      ShiftLeft(cmdBuf, cursor - 1, cmdPos);
      cmdPos := cmdPos - 1;
      cursor := cursor - 1;
      assert cmdBuf[..cmdPos] == shorter;
    }

    /** A printable byte with room left: insert it at the cursor and redraw
        the rest of the line. */
    method Insert(c: u8)
      requires Valid() && esc == Normal && Printable(c) && cmdPos < CMD_BUF_SIZE - 1
      requires c != ESC && c != CR && c != LF && c != DEL && c != BS
      modifies this`cmdPos, this`cursor, this`echo, cmdBuf
      ensures Valid()
      ensures State() == Consume(old(State()), c)
    {
      ghost var s0 := State();
      ghost var r := Step(s0.line, c);
      InsertStep(s0.line, c);
      InsertAtCursor(c);
      assert cmdBuf[..cmdPos] == r.line.text && cursor == r.line.cursor;
      var rest := cmdBuf[cursor..cmdPos];
      assert rest == r.line.text[cursor..];
      var back := MoveBack(cmdPos - cursor);
      echo := echo + ([c] + rest + back);
      assert State() == Session(r.line, s0.echo + r.echo, s0.calls + CallLog(r.call));
    }

    /** The buffer half of an insertion: the shift loop that opens a gap at
        the cursor, the store, and the two increments. */
    method InsertAtCursor(c: u8)
      requires Valid() && esc == Normal && Printable(c) && cmdPos < CMD_BUF_SIZE - 1
      modifies this`cmdPos, this`cursor, cmdBuf
      ensures Valid() && cursor == old(cursor) + 1 && cmdPos == old(cmdPos) + 1
      ensures cmdBuf[..cmdPos] == old(cmdBuf[..cursor]) + [c] + old(cmdBuf[cursor..cmdPos])
    {
      ghost var text := cmdBuf[..cmdPos];
      assert text[..cursor] == cmdBuf[..cursor] && text[cursor..] == cmdBuf[cursor..cmdPos];
      ghost var inserted := text[..cursor] + [c] + text[cursor..];
      assert AllPrintable(inserted) by {
        forall i | 0 <= i < |inserted| ensures Printable(inserted[i]) {
          if i > cursor { assert inserted[i] == text[i - 1]; }
        }
      }
      InsertAt(cmdBuf, cursor, cmdPos, c);
      cmdPos := cmdPos + 1;
      cursor := cursor + 1;
      assert cmdBuf[..cmdPos] == inserted;
    }

    /** The `for` loop of `task2` over the bytes just read. */
    method FeedAll(bs: seq<u8>)
      requires Valid()
      modifies this`cmdPos, this`cursor, this`esc, this`echo, this`calls, cmdBuf
      ensures Valid()
      ensures State() == ConsumeAll(old(State()), bs)
    {
      var i := 0;
      while i < |bs|
        invariant i <= |bs| && Valid()
        invariant State() == ConsumeAll(old(State()), bs[..i])
      {
        Feed(bs[i]);
        assert bs[..i + 1][..i] == bs[..i];
        i := i + 1;
      }
      assert bs[..i] == bs;
    }

    /** One turn of `task2`'s outer loop, with the corrected request size:
        the waiting bytes, at most 31 of them, are read from the receive
        ring and fed to the editor in arrival order. */
    method Poll(u: UartRing.Usart1)
      requires Valid() && u.Valid() && cmdBuf != u.rxBuffer
      modifies this`cmdPos, this`cursor, this`esc, this`echo, this`calls, cmdBuf, u`rxTail
      ensures Valid() && u.Valid()
      ensures var chunk := old(u.RxPending())[..Request(|old(u.RxPending())|)];
        && State() == ConsumeAll(old(State()), chunk)
        && u.RxPending() == old(u.RxPending())[|chunk|..]
    {
      var available := u.Available();
      if available > 0 {
        var rxBuf := new u8[RX_BUF_SIZE];
        var read := u.Read(Request(available), rxBuf);
        FeedAll(rxBuf[..read]);
      } else {
        assert old(u.RxPending())[..0] == [];
      }
    }
  }
}
