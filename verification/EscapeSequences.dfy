/** The escape sequences of a text, given by their form.  The stripper removes exactly them. */
module EscapeSequences {
  import opened Bytes
  import opened AnsiStripper

  const INTRODUCER: byte := 91 // "["
  const COMMAND: byte := 93 // "]"

  /** The final byte of a control sequence. */
  predicate Final(value: byte) {
    0x40 <= value <= 0x7E
  }

  /** The parameters of a control sequence that is not over. */
  predicate CsiOpen(t: Text) {
    |t| < LONGEST_SEQUENCE && forall i :: 0 <= i < |t| ==> !Final(t[i]) && !LineEnd(t[i])
  }

  /**
   * The inside of an operating system command that is not over: plain bytes, and escapes with another byte than a
   * backslash after them.  `n` counts the plain bytes and the escapes.
   */
  predicate OscOpen(t: Text, n: nat)
    decreases |t|
  {
    if t == [] then n == 0
    else if |t| >= 2 && t[|t| - 2] == ESCAPE && t[|t| - 1] != BACKSLASH && n > 0 && OscOpen(t[..|t| - 2], n - 1) then true
    else OscPlain(t[|t| - 1]) && 0 < n < LONGEST_SEQUENCE && OscOpen(t[..|t| - 1], n - 1)
  }

  predicate OscPlain(value: byte) {
    value != ESCAPE && value != BELL && !LineEnd(value)
  }

  /** A piece of text: a byte of its own, a whole sequence, or a sequence that a line end breaks off. */
  datatype Part =
    | Plain(value: byte)
    | Short(value: byte)
    | Csi(inside: Text, last: byte)
    | Osc(inside: Text, units: nat, end: Text)
    | BrokenEscape(last: byte)
    | BrokenCsi(inside: Text, last: byte)
    | BrokenOsc(inside: Text, units: nat, last: byte)

  predicate WellFormed(p: Part) {
    match p
    case Plain(value) => value != ESCAPE
    case Short(value) => value != INTRODUCER && value != COMMAND && !LineEnd(value)
    case Csi(inside, last) => CsiOpen(inside) && !LineEnd(last) && (Final(last) || |inside| == LONGEST_SEQUENCE - 1)
    case Osc(inside, units, end) =>
      && OscOpen(inside, units)
      && (end == [BELL] || end == [ESCAPE, BACKSLASH]
          || (|end| == 1 && OscPlain(end[0]) && units >= LONGEST_SEQUENCE - 1))
    case BrokenEscape(last) => LineEnd(last)
    case BrokenCsi(inside, last) => CsiOpen(inside) && LineEnd(last)
    case BrokenOsc(inside, units, last) => OscOpen(inside, units) && LineEnd(last)
  }

  function Source(p: Part): Text {
    match p
    case Plain(value) => [value]
    case Short(value) => [ESCAPE, value]
    case Csi(inside, last) => [ESCAPE, INTRODUCER] + inside + [last]
    case Osc(inside, _, end) => [ESCAPE, COMMAND] + inside + end
    case BrokenEscape(last) => [ESCAPE, last]
    case BrokenCsi(inside, last) => [ESCAPE, INTRODUCER] + inside + [last]
    case BrokenOsc(inside, _, last) => [ESCAPE, COMMAND] + inside + [last]
  }

  /** What should be left of it: plain bytes, and the line end that breaks a sequence off. */
  function Shown(p: Part): Text {
    match p
    case Plain(value) => [value]
    case Short(_) => []
    case Csi(_, _) => []
    case Osc(_, _, _) => []
    case BrokenEscape(last) => [last]
    case BrokenCsi(_, last) => [last]
    case BrokenOsc(_, _, last) => [last]
  }

  /** A sequence at the end of the text that is not over. */
  datatype Rest = Nothing | Escape | OpenCsi(inside: Text) | OpenOsc(inside: Text, units: nat) | OscEscape(inside: Text, units: nat)

  predicate RestOk(r: Rest) {
    match r
    case OpenCsi(inside) => CsiOpen(inside)
    case OpenOsc(inside, units) => OscOpen(inside, units)
    case OscEscape(inside, units) => OscOpen(inside, units)
    case _ => true
  }

  function RestText(r: Rest): Text {
    match r
    case Nothing => []
    case Escape => [ESCAPE]
    case OpenCsi(inside) => [ESCAPE, INTRODUCER] + inside
    case OpenOsc(inside, _) => [ESCAPE, COMMAND] + inside
    case OscEscape(inside, _) => [ESCAPE, COMMAND] + inside + [ESCAPE]
  }

  function Sources(parts: seq<Part>): Text {
    if parts == [] then [] else Sources(parts[..|parts| - 1]) + Source(parts[|parts| - 1])
  }

  function AllShown(parts: seq<Part>): Text {
    if parts == [] then [] else AllShown(parts[..|parts| - 1]) + Shown(parts[|parts| - 1])
  }

  /** The stripper's place while such a rest is open. */
  predicate Stands(s: State, r: Rest) {
    match r
    case Nothing => s.place.InText?
    case Escape => s == State(InEscape, 0)
    case OpenCsi(inside) => s == State(InCsi, |inside|)
    case OpenOsc(_, units) => s == State(InOsc, units)
    case OscEscape(_, units) => s == State(InOscEscape, units + 1)
  }

  lemma {:induction false} CsiSwallowed(t: Text)
    requires CsiOpen(t)
    ensures After(State(InCsi, 0), t) == State(InCsi, |t|) && Stripped(State(InCsi, 0), t) == []
  {
    if t != [] {
      CsiSwallowed(t[..|t| - 1]);
    }
  }

  lemma {:induction false} OscSwallowed(t: Text, n: nat)
    requires OscOpen(t, n)
    ensures After(State(InOsc, 0), t) == State(InOsc, n) && Stripped(State(InOsc, 0), t) == []
    decreases |t|
  {
    hide After, Stripped;
    var s := State(InOsc, 0);
    if t == [] {
      NothingRead(s);
    } else if |t| >= 2 && t[|t| - 2] == ESCAPE && t[|t| - 1] != BACKSLASH && n > 0 && OscOpen(t[..|t| - 2], n - 1) {
      var before := t[..|t| - 2];
      OscSwallowed(before, n - 1);
      StrippedByte(s, before, ESCAPE);
      StrippedByte(s, before + [ESCAPE], t[|t| - 1]);
      assert t == before + [ESCAPE] + [t[|t| - 1]];
    } else {
      OscSwallowed(t[..|t| - 1], n - 1);
      StrippedByte(s, t[..|t| - 1], t[|t| - 1]);
      assert t == t[..|t| - 1] + [t[|t| - 1]];
    }
  }

  lemma NothingRead(s: State)
    ensures After(s, []) == s && Stripped(s, []) == []
  {
  }

  /** A sequence that is not over is swallowed. */
  lemma RestSwallowed(s: State, r: Rest)
    requires s.place.InText? && RestOk(r)
    ensures Stands(After(s, RestText(r)), r) && Stripped(s, RestText(r)) == []
  {
    hide After, Stripped, CsiOpen, OscOpen;
    NothingRead(s);
    StrippedByte(s, [], ESCAPE);
    assert [] + [ESCAPE] == [ESCAPE];
    match r
    case OpenCsi(inside) =>
      StrippedByte(s, [ESCAPE], INTRODUCER);
      assert [ESCAPE] + [INTRODUCER] == [ESCAPE, INTRODUCER];
      StrippedConcat(s, [ESCAPE, INTRODUCER], inside);
      CsiSwallowed(inside);
    case OpenOsc(inside, units) =>
      CommandSwallowed(s, inside, units);
    case OscEscape(inside, units) =>
      CommandSwallowed(s, inside, units);
      StrippedByte(s, [ESCAPE, COMMAND] + inside, ESCAPE);
    case _ =>
  }

  lemma CommandSwallowed(s: State, inside: Text, units: nat)
    requires s.place.InText? && OscOpen(inside, units)
    ensures After(s, [ESCAPE, COMMAND] + inside) == State(InOsc, units) && Stripped(s, [ESCAPE, COMMAND] + inside) == []
  {
    hide After, Stripped, OscOpen;
    NothingRead(s);
    StrippedByte(s, [], ESCAPE);
    StrippedByte(s, [ESCAPE], COMMAND);
    assert [] + [ESCAPE] == [ESCAPE] && [ESCAPE] + [COMMAND] == [ESCAPE, COMMAND];
    StrippedConcat(s, [ESCAPE, COMMAND], inside);
    OscSwallowed(inside, units);
  }

  /** The end of an operating system command. */
  lemma CommandEnds(s: State, p: Part)
    requires s.place.InText? && p.Osc? && WellFormed(p)
    ensures After(s, Source(p)).place.InText? && Stripped(s, Source(p)) == []
  {
    hide After, Stripped, OscOpen;
    var before := [ESCAPE, COMMAND] + p.inside;
    CommandSwallowed(s, p.inside, p.units);
    if p.end == [ESCAPE, BACKSLASH] {
      StrippedByte(s, before, ESCAPE);
      StrippedByte(s, before + [ESCAPE], BACKSLASH);
      assert before + [ESCAPE] + [BACKSLASH] == Source(p);
    } else {
      StrippedByte(s, before, p.end[0]);
      assert before + [p.end[0]] == Source(p);
    }
  }

  /** Each part leaves what it should, and the stripper in text. */
  lemma PartStripped(s: State, p: Part)
    requires s.place.InText? && WellFormed(p)
    ensures After(s, Source(p)).place.InText? && Stripped(s, Source(p)) == Shown(p)
  {
    hide After, Stripped, CsiOpen, OscOpen;
    NothingRead(s);
    match p
    case Plain(value) =>
      StrippedByte(s, [], value);
      assert [] + [value] == [value];
    case Short(value) =>
      RestSwallowed(s, Escape);
      StrippedByte(s, [ESCAPE], value);
      assert [ESCAPE] + [value] == Source(p);
    case Csi(inside, last) =>
      RestSwallowed(s, OpenCsi(inside));
      StrippedByte(s, [ESCAPE, INTRODUCER] + inside, last);
    case Osc(_, _, _) =>
      CommandEnds(s, p);
    case BrokenEscape(last) =>
      RestSwallowed(s, Escape);
      StrippedByte(s, [ESCAPE], last);
      assert [ESCAPE] + [last] == Source(p);
    case BrokenCsi(inside, last) =>
      RestSwallowed(s, OpenCsi(inside));
      StrippedByte(s, [ESCAPE, INTRODUCER] + inside, last);
    case BrokenOsc(inside, units, last) =>
      RestSwallowed(s, OpenOsc(inside, units));
      StrippedByte(s, [ESCAPE, COMMAND] + inside, last);
  }

  ghost predicate AllWellFormed(parts: seq<Part>) {
    forall i :: 0 <= i < |parts| ==> WellFormed(parts[i])
  }

  lemma {:induction false} PartsStripped(parts: seq<Part>)
    requires AllWellFormed(parts)
    ensures After(START, Sources(parts)).place.InText? && Stripped(START, Sources(parts)) == AllShown(parts)
  {
    hide After, Stripped, WellFormed, Source, Shown;
    if parts == [] {
      NothingRead(START);
    } else {
      var before, last := parts[..|parts| - 1], parts[|parts| - 1];
      PartsStripped(before);
      StrippedConcat(START, Sources(before), Source(last));
      PartStripped(After(START, Sources(before)), last);
    }
  }

  /** However a text falls into parts and an unfinished rest, what is handed on is what is left of the parts. */
  lemma SequencesRemoved(parts: seq<Part>, rest: Rest)
    requires AllWellFormed(parts) && RestOk(rest)
    ensures Stripped(START, Sources(parts) + RestText(rest)) == AllShown(parts)
  {
    hide After, Stripped, AllWellFormed, Sources, AllShown, RestOk, RestText, Stands;
    PartsStripped(parts);
    StrippedConcat(START, Sources(parts), RestText(rest));
    RestSwallowed(After(START, Sources(parts)), rest);
  }

  /** What one more byte makes of an unfinished rest: a part that it completes, or a longer rest. */
  function Completed(r: Rest, value: byte): (seq<Part>, Rest) {
    match r
    case Nothing => if value == ESCAPE then ([], Escape) else ([Plain(value)], Nothing)
    case Escape =>
      if value == INTRODUCER then ([], OpenCsi([]))
      else if value == COMMAND then ([], OpenOsc([], 0))
      else if LineEnd(value) then ([BrokenEscape(value)], Nothing)
      else ([Short(value)], Nothing)
    case OpenCsi(inside) =>
      if LineEnd(value) then ([BrokenCsi(inside, value)], Nothing)
      else if Final(value) || |inside| == LONGEST_SEQUENCE - 1 then ([Csi(inside, value)], Nothing)
      else ([], OpenCsi(inside + [value]))
    case OpenOsc(inside, units) =>
      if value == ESCAPE then ([], OscEscape(inside, units))
      else if value == BELL then ([Osc(inside, units, [BELL])], Nothing)
      else if LineEnd(value) then ([BrokenOsc(inside, units, value)], Nothing)
      else if units >= LONGEST_SEQUENCE - 1 then ([Osc(inside, units, [value])], Nothing)
      else ([], OpenOsc(inside + [value], units + 1))
    case OscEscape(inside, units) =>
      if value == BACKSLASH then ([Osc(inside, units, [ESCAPE, BACKSLASH])], Nothing)
      else ([], OpenOsc(inside + [ESCAPE, value], units + 1))
  }

  lemma OscLonger(inside: Text, units: nat, value: byte)
    requires OscOpen(inside, units)
    ensures OscPlain(value) && units + 1 < LONGEST_SEQUENCE ==> OscOpen(inside + [value], units + 1)
    ensures value != BACKSLASH ==> OscOpen(inside + [ESCAPE, value], units + 1)
  {
    assert (inside + [value])[..|inside|] == inside;
    assert (inside + [ESCAPE, value])[..|inside|] == inside;
  }

  lemma CsiLonger(inside: Text, value: byte)
    requires CsiOpen(inside)
    ensures !Final(value) && !LineEnd(value) && |inside| != LONGEST_SEQUENCE - 1 ==> CsiOpen(inside + [value])
  {
  }

  lemma OpenStarts()
    ensures CsiOpen([]) && OscOpen([], 0)
  {
  }

  lemma CompletedForm(r: Rest, value: byte)
    requires RestOk(r)
    ensures var (parts, rest) := Completed(r, value); AllWellFormed(parts) && RestOk(rest) && |parts| <= 1
  {
    hide CsiOpen, OscOpen;
    match r
    case OpenCsi(inside) =>
      CsiLonger(inside, value);
    case OpenOsc(inside, units) =>
      OscLonger(inside, units, value);
    case OscEscape(inside, units) =>
      OscLonger(inside, units, value);
    case _ =>
      OpenStarts();
  }

  lemma OneSource(p: Part)
    ensures Sources([p]) == Source(p)
  {
    assert [p][..0] == [];
  }

  lemma CompletedText(r: Rest, value: byte)
    ensures var (parts, rest) := Completed(r, value);
      |parts| <= 1 && (if parts == [] then RestText(rest) else Source(parts[0])) == RestText(r) + [value] && (parts == [] || rest.Nothing?)
  {
    match r
    case OpenCsi(inside) =>
      assert [ESCAPE, INTRODUCER] + (inside + [value]) == [ESCAPE, INTRODUCER] + inside + [value];
    case OpenOsc(inside, units) =>
      assert [ESCAPE, COMMAND] + (inside + [value]) == [ESCAPE, COMMAND] + inside + [value];
    case OscEscape(inside, units) =>
      assert [ESCAPE, COMMAND] + (inside + [ESCAPE, value]) == [ESCAPE, COMMAND] + inside + [ESCAPE] + [value];
      assert [ESCAPE, COMMAND] + inside + [ESCAPE, value] == [ESCAPE, COMMAND] + inside + [ESCAPE] + [value];
    case _ =>
  }

  lemma CompletedOk(r: Rest, value: byte)
    requires RestOk(r)
    ensures var (parts, rest) := Completed(r, value);
      AllWellFormed(parts) && RestOk(rest) && |parts| <= 1 && Sources(parts) + RestText(rest) == RestText(r) + [value]
  {
    CompletedForm(r, value);
    CompletedText(r, value);
    NothingLeft();
    hide RestOk, AllWellFormed, Completed, RestText, Source;
    var (parts, rest) := Completed(r, value);
    if parts != [] {
      OneSource(parts[0]);
      assert parts == [parts[0]];
      assert Sources(parts) + [] == Sources(parts);
    } else {
      assert Sources(parts) + RestText(rest) == RestText(rest);
    }
  }

  /** Every text falls apart in this way. */
  lemma {:induction false} FallsApart(text: Text) returns (parts: seq<Part>, rest: Rest)
    ensures AllWellFormed(parts) && RestOk(rest) && Sources(parts) + RestText(rest) == text
  {
    hide RestOk, RestText, WellFormed, Source, Completed;
    if text == [] {
      parts, rest := [], Nothing;
      NothingLeft();
    } else {
      var before, open := FallsApart(text[..|text| - 1]);
      var value := text[|text| - 1];
      CompletedOk(open, value);
      var (last, next) := Completed(open, value);
      parts, rest := before + last, next;
      SourcesAppend(before, last);
      assert text == text[..|text| - 1] + [value];
      assert Sources(before) + Sources(last) + RestText(next) == Sources(before) + (Sources(last) + RestText(next));
    }
  }

  lemma NothingLeft()
    ensures RestOk(Nothing) && RestText(Nothing) == []
  {
  }

  lemma SourcesAppend(a: seq<Part>, b: seq<Part>)
    requires |b| <= 1
    ensures Sources(a + b) == Sources(a) + Sources(b)
  {
    if b == [] {
      assert a + b == a;
    } else {
      assert b[..0] == [] && (a + b)[..|a|] == a;
    }
  }
}
