/**
 * The header state machine of `parseHeader`, written as a transition
 * function that consumes one byte per step. The reader's imperative loop
 * (module Reader) is proved to compute exactly what `Run` computes, and the
 * lemmas here state what the machine accepts.
 */
module Header {
  import opened Bytes

  /** `ReadSpace`, `ReadNumber` and `ReadComment` of parseHeader. */
  datatype State = ReadSpace | ReadNumber | ReadComment

  /** Everything parseHeader keeps between two bytes. */
  datatype Machine = Machine(
    state: State,
    prevState: State,
    num: nat,                      // the number being accumulated
    numbers: seq<nat>,             // the numbers completed so far
    cmt: seq<Rune>,                // the comment being accumulated
    comments: seq<seq<Rune>>)      // the comments completed so far

  /** The machine parseHeader starts from (`prevState` is Go's zero value, ReadSpace). */
  const Start := Machine(ReadSpace, ReadSpace, 0, [], [], [])

  /** "unexpected eof in header" and "unexpected char in header %q". */
  datatype Fault = UnexpectedEof | UnexpectedChar(c: Rune)

  /**
   * How reading a header ends. `next` is the reader's cursor afterwards;
   * `exhausted` says whether the reader ran off the end of the input (its
   * sticky error is then io.EOF). `Diverges` is the comment loop spinning
   * forever on the 0 the exhausted reader keeps returning.
   */
  datatype Outcome =
    | Parsed(width: nat, height: nat, comments: seq<seq<Rune>>, next: nat)
    | Failed(fault: Fault, next: nat, exhausted: bool)
    | TagRejected(next: nat, exhausted: bool)
    | Diverges

  predicate IsBreak(c: Rune) {
    c == LF || c == CR
  }

  predicate NoBreaks(s: seq<Rune>) {
    forall k :: 0 <= k < |s| ==> !IsBreak(s[k])
  }

  /** At most one leading whitespace rune is dropped from a finished comment. */
  function StripOneSpace(cmt: seq<Rune>): seq<Rune> {
    if |cmt| > 0 && IsSpace(cmt[0]) then cmt[1..] else cmt
  }

  /** A digit in ReadSpace starts a number with the digit's value. */
  function StartNumber(m: Machine, c: Rune): Machine
    requires IsDigit(c)
  {
    m.(state := ReadNumber, num := c - ZERO)
  }

  /** A digit in ReadNumber: `num = num*10 + int(c-'0')`. */
  function AddDigit(m: Machine, c: Rune): Machine
    requires IsDigit(c)
  {
    m.(num := m.num * 10 + (c - ZERO))
  }

  /** Whitespace after the first number completes it; the machine goes back to ReadSpace. */
  function EndNumber(m: Machine): Machine {
    m.(state := ReadSpace, numbers := m.numbers + [m.num])
  }

  /** '#' starts a comment and remembers the state to go back to. */
  function EnterComment(m: Machine): Machine {
    m.(state := ReadComment, prevState := m.state)
  }

  /** Runes of a comment in progress are appended to it. */
  function AddRunes(m: Machine, c: seq<Rune>): Machine {
    m.(cmt := m.cmt + c)
  }

  /** The machine after the comment in progress ends at a line break. */
  function EndComment(m: Machine): Machine {
    m.(state := m.prevState, prevState := ReadComment, cmt := [],
       comments := m.comments + [StripOneSpace(m.cmt)])
  }

  /**
   * The run of the machine from cursor `pos`. A read at the end of the input
   * yields 0, which the ReadSpace and ReadNumber states report as an
   * unexpected end and the ReadComment state appends forever.
   */
  function Run(data: seq<Byte>, pos: nat, m: Machine): (o: Outcome)
    requires pos <= |data|
    decreases |data| - pos
  {
    if pos == |data| then
      (if m.state == ReadComment then Diverges else Failed(UnexpectedEof, pos, true))
    else
      var c := data[pos];
      match m.state
      case ReadSpace =>
        if IsSpace(c) then Run(data, pos + 1, m)
        else if IsDigit(c) then Run(data, pos + 1, StartNumber(m, c))
        else if c == HASH then Run(data, pos + 1, EnterComment(m))
        else if c == NUL then Failed(UnexpectedEof, pos + 1, false)
        else Failed(UnexpectedChar(c), pos + 1, false)
      case ReadNumber =>
        if IsDigit(c) then Run(data, pos + 1, AddDigit(m, c))
        else if IsSpace(c) then
          // the number is appended; with it there are two when one was there
          if |m.numbers| == 1 then Parsed(m.numbers[0], m.num, m.comments, pos + 1)
          else Run(data, pos + 1, EndNumber(m))
        else if c == HASH then Run(data, pos + 1, EnterComment(m))
        else if c == NUL then Failed(UnexpectedEof, pos + 1, false)
        else Failed(UnexpectedChar(c), pos + 1, false)
      case ReadComment =>
        if IsBreak(c) then Run(data, pos + 1, EndComment(m))
        else Run(data, pos + 1, AddRunes(m, [c]))
  }

  /**
   * How a run from `pos` can end: parsed just after a whitespace byte;
   * failed at the end of the input, or just after a NUL ("unexpected eof"),
   * or just after a byte that is not whitespace, a digit, '#' or NUL
   * ("unexpected char" carrying that byte); or looping in a comment.
   */
  ghost predicate EndsWell(data: seq<Byte>, pos: nat, o: Outcome) {
    (o.Parsed? ==> pos < o.next <= |data| && IsSpace(data[o.next - 1])) &&
    (o.Failed? ==> pos <= o.next <= |data|) &&
    (o.Failed? && o.exhausted ==> o.next == |data| && o.fault == UnexpectedEof) &&
    (o.Failed? && !o.exhausted ==>
      pos < o.next &&
      match o.fault
      case UnexpectedEof => data[o.next - 1] == NUL
      case UnexpectedChar(c) =>
        data[o.next - 1] == c && !IsSpace(c) && !IsDigit(c) && c != HASH && c != NUL) &&
    !o.TagRejected?
  }

  /** Every run ends in one of the ways `EndsWell` lists. */
  lemma {:induction false} RunEnds(data: seq<Byte>, pos: nat, m: Machine)
    requires pos <= |data|
    ensures EndsWell(data, pos, Run(data, pos, m))
    decreases |data| - pos
  {
    if pos < |data| {
      var c := data[pos];
      match m.state
      case ReadSpace =>
        if IsSpace(c) {
          RunEnds(data, pos + 1, m);
        } else if IsDigit(c) {
          RunEnds(data, pos + 1, StartNumber(m, c));
        } else if c == HASH {
          RunEnds(data, pos + 1, EnterComment(m));
        }
      case ReadNumber =>
        if IsDigit(c) {
          RunEnds(data, pos + 1, AddDigit(m, c));
        } else if IsSpace(c) {
          if |m.numbers| != 1 {
            RunEnds(data, pos + 1, EndNumber(m));
          }
        } else if c == HASH {
          RunEnds(data, pos + 1, EnterComment(m));
        }
      case ReadComment =>
        if IsBreak(c) {
          RunEnds(data, pos + 1, EndComment(m));
        } else {
          RunEnds(data, pos + 1, AddRunes(m, [c]));
        }
    }
  }

  /**
   * GetConfig / GetHeader: the bytes 'P', '1' and a whitespace byte, then
   * the machine from its start. Each of the three reads consumes a byte
   * unless the input is already exhausted.
   */
  function ReadHeader(data: seq<Byte>, pos: nat): (o: Outcome)
    requires pos <= |data|
    ensures o.Parsed? ==>
      pos + 3 < o.next && o.next <= |data| && data[pos] == LETTER_P && data[pos + 1] == ONE && IsSpace(data[pos + 2])
    ensures o.TagRejected? ==> pos <= o.next <= pos + 3 && o.next <= |data|
    ensures o.TagRejected? ==>
      !(pos + 3 <= |data| && data[pos] == LETTER_P && data[pos + 1] == ONE && IsSpace(data[pos + 2]))
  {
    if pos == |data| then TagRejected(pos, true)
    else if data[pos] != LETTER_P then TagRejected(pos + 1, false)
    else if pos + 1 == |data| then TagRejected(pos + 1, true)
    else if data[pos + 1] != ONE then TagRejected(pos + 2, false)
    else if pos + 2 == |data| then TagRejected(pos + 2, true)
    else if !IsSpace(data[pos + 2]) then TagRejected(pos + 3, false)
    else RunEnds(data, pos + 3, Start); Run(data, pos + 3, Start)
  }

  /** While in a comment, every byte that is not a line break is appended. */
  lemma {:induction false} CommentBody(data: seq<Byte>, pos: nat, m: Machine, c: seq<Rune>)
    requires m.state == ReadComment
    requires pos + |c| <= |data| && data[pos..pos + |c|] == c && NoBreaks(c)
    ensures Run(data, pos, m) == Run(data, pos + |c|, AddRunes(m, c))
    decreases |c|
  {
    if c == [] {
      assert m.cmt + c == m.cmt;
      assert AddRunes(m, c) == m;
    } else {
      assert data[pos] == c[0];
      assert data[pos + 1..pos + |c|] == c[1..];
      assert m.cmt + [c[0]] + c[1..] == m.cmt + c;
      CommentBody(data, pos + 1, AddRunes(m, [c[0]]), c[1..]);
    }
  }

  /**
   * A comment is the bytes after '#' up to, and excluding, the first '\n'
   * or '\r'; at most one leading whitespace byte is dropped; it is appended
   * after the comments before it; and the machine resumes the state it was
   * in when the '#' arrived.
   */
  lemma CommentRule(data: seq<Byte>, pos: nat, m: Machine, c: seq<Rune>)
    requires m.state == ReadSpace || m.state == ReadNumber
    requires pos + |c| + 2 <= |data| && data[pos] == HASH
    requires data[pos + 1..pos + 1 + |c|] == c && NoBreaks(c) && IsBreak(data[pos + 1 + |c|])
    ensures Run(data, pos, m) ==
      Run(data, pos + |c| + 2,
          m.(prevState := ReadComment, cmt := [], comments := m.comments + [StripOneSpace(m.cmt + c)]))
  {
    var inComment := EnterComment(m);
    assert Run(data, pos, m) == Run(data, pos + 1, inComment);
    CommentBody(data, pos + 1, inComment, c);
    var done := AddRunes(inComment, c);
    assert Run(data, pos + 1 + |c|, done) == Run(data, pos + |c| + 2, EndComment(done));
    assert EndComment(done) ==
      m.(prevState := ReadComment, cmt := [], comments := m.comments + [StripOneSpace(m.cmt + c)]);
  }

  /** A comment inside a number leaves the number's digits so far in place. */
  lemma NumberContinuesAfterComment(data: seq<Byte>, pos: nat, m: Machine, c: seq<Rune>, ds: seq<Byte>)
    requires m.state == ReadNumber && m.cmt == []
    requires pos + |c| + 2 + |ds| <= |data| && data[pos] == HASH
    requires data[pos + 1..pos + 1 + |c|] == c && NoBreaks(c) && IsBreak(data[pos + 1 + |c|])
    requires data[pos + |c| + 2..pos + |c| + 2 + |ds|] == ds && AllDigits(ds)
    ensures Run(data, pos, m) ==
      Run(data, pos + |c| + 2 + |ds|,
          m.(prevState := ReadComment, num := FoldDigits(m.num, ds),
             comments := m.comments + [StripOneSpace(c)]))
  {
    CommentRule(data, pos, m, c);
    assert m.cmt + c == c;
    NumberDigits(data, pos + |c| + 2,
                 m.(prevState := ReadComment, cmt := [], comments := m.comments + [StripOneSpace(c)]), ds);
  }

  /** In ReadNumber, digits fold into the number: `num = num*10 + digit`. */
  lemma {:induction false} NumberDigits(data: seq<Byte>, pos: nat, m: Machine, ds: seq<Byte>)
    requires m.state == ReadNumber
    requires pos + |ds| <= |data| && data[pos..pos + |ds|] == ds && AllDigits(ds)
    ensures Run(data, pos, m) == Run(data, pos + |ds|, m.(num := FoldDigits(m.num, ds)))
    decreases |ds|
  {
    if ds == [] {
      assert m.(num := FoldDigits(m.num, ds)) == m;
    } else {
      assert data[pos] == ds[0];
      assert data[pos + 1..pos + |ds|] == ds[1..];
      NumberDigits(data, pos + 1, AddDigit(m, ds[0]), ds[1..]);
    }
  }

  /** From ReadSpace, a run of decimal digits is read as one number, the left fold of its digits. */
  lemma NumberRun(data: seq<Byte>, pos: nat, m: Machine, ds: seq<Byte>)
    requires m.state == ReadSpace
    requires |ds| > 0 && AllDigits(ds)
    requires pos + |ds| <= |data| && data[pos..pos + |ds|] == ds
    ensures Run(data, pos, m) == Run(data, pos + |ds|, m.(state := ReadNumber, num := FoldDigits(0, ds)))
  {
    assert data[pos] == ds[0];
    var m1 := StartNumber(m, ds[0]);
    assert data[pos + 1..pos + |ds|] == ds[1..];
    NumberDigits(data, pos + 1, m1, ds[1..]);
    assert FoldDigits(m1.num, ds[1..]) == FoldDigits(0, ds);
  }

  /** At `pos` in `data`: the decimal digits `ds`, then a whitespace byte. */
  predicate NumberAt(data: seq<Byte>, pos: nat, ds: seq<Byte>) {
    |ds| > 0 && AllDigits(ds) && pos + |ds| < |data| && data[pos..pos + |ds|] == ds && IsSpace(data[pos + |ds|])
  }

  /**
   * From ReadSpace with no number yet, digits ended by a whitespace byte
   * complete the first number and the machine goes back to ReadSpace.
   */
  lemma FirstNumber(data: seq<Byte>, pos: nat, m: Machine, ds: seq<Byte>)
    requires m.state == ReadSpace && m.numbers == [] && NumberAt(data, pos, ds)
    ensures Run(data, pos, m) == Run(data, pos + |ds| + 1,
      m.(state := ReadSpace, num := FoldDigits(0, ds), numbers := [FoldDigits(0, ds)]))
  {
    NumberRun(data, pos, m, ds);
    assert m.numbers + [FoldDigits(0, ds)] == [FoldDigits(0, ds)];
  }

  /**
   * From ReadSpace with one number read, digits ended by a whitespace byte
   * complete the height, and the header ends right after that byte.
   */
  lemma SecondNumber(data: seq<Byte>, pos: nat, m: Machine, ds: seq<Byte>)
    requires m.state == ReadSpace && |m.numbers| == 1 && NumberAt(data, pos, ds)
    ensures Run(data, pos, m) == Parsed(m.numbers[0], FoldDigits(0, ds), m.comments, pos + |ds| + 1)
  {
    NumberRun(data, pos, m, ds);
  }

  /**
   * From ReadSpace with no number yet: two runs of decimal digits, each
   * ended by a whitespace byte, give the width and the height, and the
   * machine stops right after the second whitespace byte.
   */
  lemma TwoNumbers(data: seq<Byte>, pos: nat, m: Machine, w: seq<Byte>, h: seq<Byte>)
    requires m.state == ReadSpace && m.numbers == []
    requires NumberAt(data, pos, w) && NumberAt(data, pos + |w| + 1, h)
    ensures Run(data, pos, m) ==
      Parsed(FoldDigits(0, w), FoldDigits(0, h), m.comments, pos + |w| + |h| + 2)
  {
    var wv := FoldDigits(0, w);
    var q := pos + |w| + 1;
    FirstNumber(data, pos, m, w);
    assert q + |h| + 1 == pos + |w| + |h| + 2;
    SecondNumber(data, q, m.(state := ReadSpace, num := wv, numbers := [wv]), h);
  }

  /** A machine whose comment state always has a state to return to. */
  predicate Resumable(m: Machine) {
    m.state == ReadComment ==> m.prevState != ReadComment
  }

  /** Every '#' from `pos` on is followed, later in the input, by a line break. */
  predicate CommentsTerminated(data: seq<Byte>, pos: nat) {
    forall p :: pos <= p < |data| && data[p] == HASH ==>
      exists q :: p < q < |data| && IsBreak(data[q])
  }

  /**
   * The comment loop only exits on '\n' or '\r': the machine stops if every
   * comment it may enter is followed by a line break.
   */
  lemma {:induction false} TerminatedCommentsStop(data: seq<Byte>, pos: nat, m: Machine)
    requires pos <= |data| && Resumable(m) && CommentsTerminated(data, pos)
    requires m.state == ReadComment ==> exists q :: pos <= q < |data| && IsBreak(data[q])
    ensures !Run(data, pos, m).Diverges?
    decreases |data| - pos
  {
    if pos < |data| {
      var c := data[pos];
      match m.state
      case ReadSpace =>
        if IsSpace(c) {
          TerminatedCommentsStop(data, pos + 1, m);
        } else if IsDigit(c) {
          TerminatedCommentsStop(data, pos + 1, StartNumber(m, c));
        } else if c == HASH {
          TerminatedCommentsStop(data, pos + 1, EnterComment(m));
        }
      case ReadNumber =>
        if IsDigit(c) {
          TerminatedCommentsStop(data, pos + 1, AddDigit(m, c));
        } else if IsSpace(c) {
          if |m.numbers| != 1 {
            TerminatedCommentsStop(data, pos + 1, EndNumber(m));
          }
        } else if c == HASH {
          TerminatedCommentsStop(data, pos + 1, EnterComment(m));
        }
      case ReadComment =>
        if IsBreak(c) {
          TerminatedCommentsStop(data, pos + 1, EndComment(m));
        } else {
          TerminatedCommentsStop(data, pos + 1, AddRunes(m, [c]));
        }
    }
  }

  /** Every comment of `m`, finished or not, is free of line breaks. */
  predicate OneLineComments(m: Machine) {
    NoBreaks(m.cmt) && forall k :: 0 <= k < |m.comments| ==> NoBreaks(m.comments[k])
  }

  /** An outcome that, when it is a parsed header, holds no comment with a line break. */
  predicate OneLineOutcome(o: Outcome) {
    o.Parsed? ==> forall k :: 0 <= k < |o.comments| ==> NoBreaks(o.comments[k])
  }

  /**
   * A comment ends at the first '\n' or '\r', so no comment the machine
   * returns contains a line break.
   */
  lemma {:induction false} ParsedCommentsOneLine(data: seq<Byte>, pos: nat, m: Machine)
    requires pos <= |data| && OneLineComments(m)
    ensures OneLineOutcome(Run(data, pos, m))
    decreases |data| - pos
  {
    if pos < |data| {
      var c := data[pos];
      match m.state
      case ReadSpace =>
        if IsSpace(c) {
          ParsedCommentsOneLine(data, pos + 1, m);
        } else if IsDigit(c) {
          ParsedCommentsOneLine(data, pos + 1, StartNumber(m, c));
        } else if c == HASH {
          ParsedCommentsOneLine(data, pos + 1, EnterComment(m));
        }
      case ReadNumber =>
        if IsDigit(c) {
          ParsedCommentsOneLine(data, pos + 1, AddDigit(m, c));
        } else if IsSpace(c) {
          if |m.numbers| != 1 {
            ParsedCommentsOneLine(data, pos + 1, EndNumber(m));
          }
        } else if c == HASH {
          ParsedCommentsOneLine(data, pos + 1, EnterComment(m));
        }
      case ReadComment =>
        if IsBreak(c) {
          ParsedCommentsOneLine(data, pos + 1, EndComment(m));
        } else {
          ParsedCommentsOneLine(data, pos + 1, AddRunes(m, [c]));
        }
    }
  }
}
