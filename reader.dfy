/**
 * `PBMReader`: a byte reader with a sticky error, and the header parser
 * built on it. The two copies of the reader (pkg/pbm_reader.go and
 * pkg/reader/pbm_reader.go) share the byte reader and the state-machine
 * loop; they differ only in where a header error ends up, so one class
 * carries both entry points.
 */
module Reader {
  import opened Wrappers
  import opened Bytes
  import opened Header
  import opened Image

  /** The errors the reader's sticky `err` can hold. */
  datatype ReadError = EOF | UnexpectedEofInHeader | UnexpectedCharInHeader(c: Rune)

  /** The error value parseHeader builds for a fault. */
  function HeaderError(f: Fault): ReadError {
    match f
    case UnexpectedEof => UnexpectedEofInHeader
    case UnexpectedChar(c) => UnexpectedCharInHeader(c)
  }

  /** `string(cmt)` of every finished comment, in order. */
  function Strings(cs: seq<seq<Rune>>): (r: seq<String>)
    ensures |r| == |cs| && forall k :: 0 <= k < |cs| ==> r[k] == RunesToString(cs[k])
  {
    seq(|cs|, k requires 0 <= k < |cs| => RunesToString(cs[k]))
  }

  /** Appending a finished comment appends its Go string. */
  lemma StringsSnoc(cs: seq<seq<Rune>>, c: seq<Rune>)
    ensures Strings(cs + [c]) == Strings(cs) + [RunesToString(c)]
  {
    assert forall k :: 0 <= k < |cs| ==> (cs + [c])[k] == cs[k];
  }

  class PbmReader {
    /** The whole input the underlying bufio.Reader delivers. */
    const data: seq<Byte>
    /** How many bytes have been read. */
    var pos: nat
    /** The sticky error; `None` is nil. */
    var err: Option<ReadError>

    predicate Valid()
      reads this
    {
      pos <= |data|
    }

    /** NewPBMReader. */
    constructor (data: seq<Byte>)
      ensures this.data == data && pos == 0 && err == None && Valid()
    {
      this.data := data;
      pos := 0;
      err := None;
    }

    /**
     * The next byte as a rune; 0 without reading once an error is set, and
     * 0 with the error set to EOF when the input is exhausted.
     */
    method GetNextByteAsRune() returns (c: Rune)
      requires Valid()
      modifies this
      ensures Valid()
      ensures old(err).Some? ==> c == 0 && pos == old(pos) && err == old(err)
      ensures old(err).None? && old(pos) < |data| ==>
        c == data[old(pos)] && pos == old(pos) + 1 && err == None
      ensures old(err).None? && old(pos) == |data| ==>
        c == 0 && pos == old(pos) && err == Some(EOF)
    {
      if err.Some? {
        return 0;
      }
      if pos == |data| {
        err := Some(EOF);
        return 0;
      }
      c := data[pos];
      pos := pos + 1;
    }

    /**
     * The rune `c` just returned is the next input of machine `m`, whose
     * run leads to `o`: either a byte just read, or the 0 of an exhausted
     * input.
     */
    ghost predicate Pending(c: Rune, m: Machine, o: Outcome)
      reads this
    {
      pos <= |data| &&
      ((err == None && 0 < pos && c == data[pos - 1] && Run(data, pos - 1, m) == o) ||
       (err == Some(EOF) && pos == |data| && c == 0 && Run(data, pos, m) == o))
    }

    /** `for c = next(); unicode.IsSpace(c); c = next() {}` in state ReadSpace. */
    method SkipSpace(ghost m: Machine, ghost o: Outcome) returns (c: Rune)
      requires Valid() && err == None && m.state == ReadSpace && Run(data, pos, m) == o
      modifies this
      ensures Valid() && !IsSpace(c) && (pos > old(pos) || err.Some?)
      ensures IsDigit(c) ==> err == None && Run(data, pos, StartNumber(m, c)) == o
      ensures c == HASH ==> err == None && Run(data, pos, EnterComment(m)) == o
      ensures c == NUL ==> o == Failed(UnexpectedEof, pos, err.Some?) && (err == None || err == Some(EOF))
      ensures !IsDigit(c) && c != HASH && c != NUL ==> err == None && o == Failed(UnexpectedChar(c), pos, false)
    {
      ghost var start := pos;
      c := GetNextByteAsRune();
      while IsSpace(c)
        invariant Pending(c, m, o) && (pos > start || err.Some?)
        decreases |data| - pos, if err.None? then 1 else 0
      {
        c := GetNextByteAsRune();
      }
    }

    /** The digit loop of state ReadNumber: `num = num*10 + int(c-'0')`. */
    method ReadDigits(num0: nat, ghost m: Machine, ghost o: Outcome) returns (c: Rune, num: nat)
      requires Valid() && err == None && m.state == ReadNumber && m.num == num0
      requires Run(data, pos, m) == o
      modifies this
      ensures Valid() && !IsDigit(c) && (pos > old(pos) || err.Some?)
      ensures IsSpace(c) ==> err == None
      ensures IsSpace(c) && |m.numbers| == 1 ==> o == Parsed(m.numbers[0], num, m.comments, pos)
      ensures IsSpace(c) && |m.numbers| != 1 ==>
        Run(data, pos, m.(state := ReadSpace, num := num, numbers := m.numbers + [num])) == o
      ensures c == HASH ==> err == None && Run(data, pos, m.(num := num, state := ReadComment, prevState := ReadNumber)) == o
      ensures c == NUL ==> o == Failed(UnexpectedEof, pos, err.Some?) && (err == None || err == Some(EOF))
      ensures !IsSpace(c) && c != HASH && c != NUL ==> err == None && o == Failed(UnexpectedChar(c), pos, false)
    {
      ghost var start := pos;
      num := num0;
      c := GetNextByteAsRune();
      while IsDigit(c)
        invariant Pending(c, m.(num := num), o) && (pos > start || err.Some?)
        decreases |data| - pos, if err.None? then 1 else 0
      {
        num := num * 10 + (c - ZERO);
        c := GetNextByteAsRune();
      }
    }

    /**
     * The text loop of state ReadComment, appending every rune up to a line
     * break. It only stops because the run does not diverge.
     */
    method ReadCommentText(cmt0: seq<Rune>, ghost m: Machine, ghost o: Outcome)
      returns (c: Rune, cmt: seq<Rune>)
      requires Valid() && err == None && m.state == ReadComment && m.cmt == cmt0
      requires Run(data, pos, m) == o && !o.Diverges?
      modifies this
      ensures Valid() && IsBreak(c) && err == None && pos > old(pos)
      ensures Run(data, pos, EndComment(m.(cmt := cmt))) == o
    {
      ghost var start := pos;
      cmt := cmt0;
      c := GetNextByteAsRune();
      while c != LF && c != CR
        invariant Pending(c, m.(cmt := cmt), o) && pos > start
        invariant !o.Diverges?
        decreases |data| - pos, if err.None? then 1 else 0
      {
        cmt := cmt + [c];
        c := GetNextByteAsRune();
      }
    }

    /**
     * The reader stopped where the run `o` stops: a parsed header gives its
     * two numbers and its comments as Go strings with no error; a fault is
     * returned with the error io.EOF exactly when the input ran out.
     */
    ghost predicate Reports(o: Outcome, numbers: seq<nat>, comments: seq<String>, fault: Option<Fault>)
      reads this
    {
      (o.Parsed? ==>
        fault == None && pos == o.next && err == None &&
        numbers == [o.width, o.height] && comments == Strings(o.comments)) &&
      (o.Failed? ==>
        fault == Some(o.fault) && pos == o.next && err == (if o.exhausted then Some(EOF) else None))
    }

    /**
     * The state-machine loop both copies of parseHeader share, from a
     * reader with no error. It stops as `Run` says, leaving the reader's
     * cursor and error where `Run` says, and returns the numbers, the
     * comments as Go strings, and the fault if there was one.
     */
    method Scan() returns (numbers: seq<nat>, comments: seq<String>, fault: Option<Fault>)
      requires Valid() && err == None
      requires !Run(data, pos, Start).Diverges?
      modifies this
      ensures Valid() && Reports(Run(data, old(pos), Start), numbers, comments, fault)
    {
      ghost var o := Run(data, pos, Start);
      var state, prevState, num: nat := ReadSpace, ReadSpace, 0;
      var cmt: seq<Rune> := [];
      numbers, comments := [], [];
      ghost var runes: seq<seq<Rune>> := [];
      var c: Rune;
      while true
        invariant Valid() && err == None && !o.Diverges?
        invariant comments == Strings(runes)
        invariant Run(data, pos, Machine(state, prevState, num, numbers, cmt, runes)) == o
        decreases |data| - pos
      {
        ghost var m := Machine(state, prevState, num, numbers, cmt, runes);
        match state
        case ReadSpace =>
          c := SkipSpace(m, o);
          if IsDigit(c) {
            state := ReadNumber;
            num := c - ZERO;
          } else if c == HASH {
            state := ReadComment;
            prevState := ReadSpace;
          } else if c == 0 {
            return [], [], Some(UnexpectedEof);
          } else {
            return [], [], Some(UnexpectedChar(c));
          }
        case ReadNumber =>
          c, num := ReadDigits(num, m, o);
          if IsSpace(c) {
            state := ReadSpace;
            numbers := numbers + [num];
            if |numbers| == 2 {
              return numbers, comments, None;
            }
          } else if c == HASH {
            state := ReadComment;
            prevState := ReadNumber;
          } else if c == 0 {
            return [], [], Some(UnexpectedEof);
          } else {
            return [], [], Some(UnexpectedChar(c));
          }
        case ReadComment =>
          c, cmt := ReadCommentText(cmt, m, o);
          if |cmt| > 0 && IsSpace(cmt[0]) {
            cmt := cmt[1..];
          }
          StringsSnoc(runes, cmt);
          comments := comments + [RunesToString(cmt)];
          runes := runes + [cmt];
          cmt := [];
          state := prevState;
          prevState := ReadComment;
      }
    }

    /**
     * parseHeader of pkg/pbm_reader.go: a fault becomes the reader's
     * sticky error, replacing an io.EOF, and nil slices are returned.
     */
    method ParseHeader() returns (numbers: seq<nat>, comments: seq<String>)
      requires Valid() && err == None
      requires !Run(data, pos, Start).Diverges?
      modifies this
      ensures Valid()
      ensures Run(data, old(pos), Start).Parsed? ==>
        var o := Run(data, old(pos), Start);
        numbers == [o.width, o.height] && comments == Strings(o.comments) && pos == o.next && err == None
      ensures Run(data, old(pos), Start).Failed? ==>
        var o := Run(data, old(pos), Start);
        numbers == [] && comments == [] && pos == o.next && err == Some(HeaderError(o.fault))
    {
      var fault;
      numbers, comments, fault := Scan();
      if fault.Some? {
        err := Some(HeaderError(fault.value));
        return [], [];
      }
    }

    /**
     * parseHeader of pkg/reader/pbm_reader.go: a fault is returned and the
     * sticky error keeps what the byte reads left there.
     */
    method ParseHeaderReturningError() returns (numbers: seq<nat>, comments: seq<String>, e: Option<ReadError>)
      requires Valid() && err == None
      requires !Run(data, pos, Start).Diverges?
      modifies this
      ensures Valid()
      ensures Run(data, old(pos), Start).Parsed? ==>
        var o := Run(data, old(pos), Start);
        numbers == [o.width, o.height] && comments == Strings(o.comments) && e == None &&
        pos == o.next && err == None
      ensures Run(data, old(pos), Start).Failed? ==>
        var o := Run(data, old(pos), Start);
        numbers == [] && comments == [] && e == Some(HeaderError(o.fault)) &&
        pos == o.next && err == (if o.exhausted then Some(EOF) else None)
    {
      var fault;
      numbers, comments, fault := Scan();
      if fault.Some? {
        return [], [], Some(HeaderError(fault.value));
      }
      e := None;
    }

    /**
     * The tag 'P', '1', whitespace, read one rune at a time; false as soon
     * as one does not match.
     */
    method ReadTag() returns (ok: bool)
      requires Valid()
      modifies this
      ensures Valid()
      ensures old(err).Some? ==> !ok && pos == old(pos) && err == old(err)
      ensures old(err).None? ==>
        var o := ReadHeader(data, old(pos));
        (ok <==> !o.TagRejected?) &&
        (ok ==> pos == old(pos) + 3 && err == None && o == Run(data, pos, Start)) &&
        (!ok ==> pos == o.next && err == (if o.exhausted then Some(EOF) else None))
    {
      var rune1 := GetNextByteAsRune();
      if rune1 != LETTER_P {
        return false;
      }
      var rune2 := GetNextByteAsRune();
      if rune2 != ONE {
        return false;
      }
      var rune3 := GetNextByteAsRune();
      if !IsSpace(rune3) {
        return false;
      }
      return true;
    }

    /**
     * GetConfig of pkg/pbm_reader.go: the header as `ReadHeader` reads it,
     * or `Config{}` and false, with a fault left in the sticky error.
     */
    method GetConfig() returns (config: Config, ok: bool)
      requires Valid()
      requires err.None? ==> !ReadHeader(data, pos).Diverges?
      modifies this
      ensures Valid()
      ensures old(err).Some? ==> !ok && config == EmptyConfig && pos == old(pos) && err == old(err)
      ensures old(err).None? ==>
        var o := ReadHeader(data, old(pos));
        (ok <==> o.Parsed?) &&
        (o.Parsed? ==>
          config == Config(o.width, o.height, Strings(o.comments)) && pos == o.next && err == None) &&
        (o.TagRejected? ==>
          config == EmptyConfig && pos == o.next && err == (if o.exhausted then Some(EOF) else None)) &&
        (o.Failed? ==> config == EmptyConfig && pos == o.next && err == Some(HeaderError(o.fault)))
    {
      var tagged := ReadTag();
      if !tagged {
        return EmptyConfig, false;
      }
      var numbers, comments := ParseHeader();
      if err.Some? {
        return EmptyConfig, false;
      }
      config := Config(numbers[0], numbers[1], comments);
      ok := true;
    }

    /**
     * GetHeader of pkg/reader/pbm_reader.go: the same header, but a fault
     * leaves the sticky error as the byte reads left it.
     */
    method GetHeader() returns (header: Config, ok: bool)
      requires Valid()
      requires err.None? ==> !ReadHeader(data, pos).Diverges?
      modifies this
      ensures Valid()
      ensures old(err).Some? ==> !ok && header == EmptyConfig && pos == old(pos) && err == old(err)
      ensures old(err).None? ==>
        var o := ReadHeader(data, old(pos));
        (ok <==> o.Parsed?) &&
        (o.Parsed? ==>
          header == Config(o.width, o.height, Strings(o.comments)) && pos == o.next && err == None) &&
        (o.TagRejected? || o.Failed? ==>
          header == EmptyConfig && pos == o.next && err == (if o.exhausted then Some(EOF) else None))
    {
      var tagged := ReadTag();
      if !tagged {
        return EmptyConfig, false;
      }
      var numbers, comments, e := ParseHeaderReturningError();
      if e.Some? {
        return EmptyConfig, false;
      }
      header := Config(numbers[0], numbers[1], comments);
      if err.Some? {
        return EmptyConfig, false;
      }
      ok := true;
    }
  }
}
