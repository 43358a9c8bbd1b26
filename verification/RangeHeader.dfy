/** The two readers of a Range header: the request classifier, and the planner's
    parser. Both are compared with section 14.1.2 of RFC 9110. */
module RangeHeader {
  import opened Results
  import opened Text
  import opened RangePlan
  import opened Integers

  // ------------------------------------------------------------------ strings

  /** The texts before and after the first occurrence of `c`. */
  function Cut(s: string, c: char): (r: Option<(string, string)>)
    ensures r.None? <==> c !in s
    ensures r.Some? ==> s == r.value.0 + [c] + r.value.1 && c !in r.value.0
  {
    if s == [] then None
    else if s[0] == c then Some(([], s[1..]))
    else
      match Cut(s[1..], c)
      case None => None
      case Some((before, after)) => Some(([s[0]] + before, after))
  }

  const UNIT := "bytes="

  /** What follows the unit, trimmed: the same text in both readers. */
  function SpecOf(header: string): Option<string> {
    var value := TrimSpace(header);
    if UNIT <= value then Some(TrimSpace(value[|UNIT|..])) else None
  }

  // --------------------------------------------------------------- the readers

  predicate IsUnsignedDecimal(value: string) {
    value != [] && forall i :: 0 <= i < |value| ==> '0' <= value[i] <= '9'
  }

  predicate IsSingleRangeHeader(header: string) {
    match SpecOf(header)
    case None => false
    case Some(spec) =>
      && spec != [] && ',' !in spec
      && match Cut(spec, '-')
         case None => false
         case Some((start, end)) =>
           && !(start == [] && end == [])
           && (start != [] ==> IsUnsignedDecimal(start))
           && (end != [] ==> IsUnsignedDecimal(end))
           && (start != [] ==> ParseInt(start, 10).Some?)
           && (end != [] ==> ParseInt(end, 10).Some?)
           && (start != [] && end != [] ==> ParseInt(start, 10).value <= ParseInt(end, 10).value)
  }

  function ParseNonNegativeInt(text: string): Option<nat> {
    match ParseInt(text, 10)
    case None => None
    case Some(v) => if v < 0 then None else Some(v)
  }

  function ParseSuffixRange(text: string, size: int): Result<ByteRange>
    requires size > 0
  {
    match ParseNonNegativeInt(text)
    case None => Err("invalid suffix range")
    case Some(suffix) =>
      if suffix == 0 then Err("suffix range must be greater than zero")
      else if suffix >= size then Ok(ByteRange(0, size - 1))
      else Ok(ByteRange(size - suffix, size - 1))
  }

  function ParseRange(header: string, size: int): Result<ByteRange> {
    if size <= 0 then Err("object size must be greater than zero")
    else
      match SpecOf(header)
      case None => Err("unsupported range unit")
      case Some(spec) =>
        if spec == [] || ',' in spec then Err("unsupported range spec")
        else
          match Cut(spec, '-')
          case None => Err("invalid range spec")
          case Some((startText, endText)) =>
            if startText == [] then ParseSuffixRange(endText, size)
            else ParseFrom(startText, endText, size)
  }

  function ParseFrom(startText: string, endText: string, size: int): Result<ByteRange>
    requires size > 0
  {
    match ParseNonNegativeInt(startText)
    case None => Err("invalid range start")
    case Some(start) =>
      if start >= size then Err("range start is beyond object size")
      else if endText == [] then Ok(ByteRange(start, size - 1))
      else
        match ParseNonNegativeInt(endText)
        case None => Err("invalid range end")
        case Some(end) =>
          if end < start then Err("range end is before start")
          else Ok(ByteRange(start, if end >= size then size - 1 else end))
  }

  // ------------------------------------------------------------- the standard

  /** A range spec of RFC 9110: an int-range with or without a last position, or
      a suffix-range. */
  datatype RangeSpec = From(first: nat) | Between(first: nat, last: nat) | Suffix(length: nat)

  /** `text` is 1*DIGIT with value `n`. */
  ghost predicate Writes(text: string, n: nat) {
    IsUnsignedDecimal(text) && AllDigits(text, 10) && Value(text, 10) == n
  }

  /** The texts on both sides of the dash write this spec. */
  ghost predicate Sides(start: string, end: string, r: RangeSpec) {
    match r
    case From(first) => Writes(start, first) && end == []
    case Between(first, last) => Writes(start, first) && Writes(end, last)
    case Suffix(length) => start == [] && Writes(end, length)
  }

  predicate Spaces(s: string) {
    forall i :: 0 <= i < |s| ==> IsSpace(s[i])
  }

  /** The header is the unit, optional white space and `spec`, between optional
      white space. */
  ghost predicate Frames(header: string, spec: string) {
    exists before, between, after ::
      && Spaces(before) && Spaces(between) && Spaces(after)
      && header == before + UNIT + between + spec + after
  }

  /** The header writes this range. */
  ghost predicate Denotes(header: string, r: RangeSpec) {
    exists start, end :: Sides(start, end, r) && Frames(header, start + "-" + end)
  }

  predicate WellFormed(r: RangeSpec) {
    match r
    case From(first) => IsInt64(first)
    case Between(first, last) => IsInt64(first) && IsInt64(last) && first <= last
    case Suffix(length) => IsInt64(length)
  }

  /** Byte `i` of an object of `size` bytes is asked for. */
  predicate Selects(r: RangeSpec, size: int, i: int) {
    && 0 <= i < size
    && match r
       case From(first) => first <= i
       case Between(first, last) => first <= i <= last
       case Suffix(length) => size - length <= i
  }

  // ------------------------------------------------------------------- lemmas

  predicate Tight(s: string) {
    s != [] && !IsSpace(s[0]) && !IsSpace(s[|s| - 1])
  }

  lemma {:induction false} TrimRemoves(l: string, t: string, r: string)
    requires Spaces(l) && Tight(t) && Spaces(r)
    ensures TrimSpace(l + t + r) == t
    decreases |l| + |r|
  {
    var s := l + t + r;
    if l != [] {
      assert s[1..] == l[1..] + t + r;
      TrimRemoves(l[1..], t, r);
    } else if r != [] {
      assert s[|s| - 1] == r[|r| - 1] && s[..|s| - 1] == l + t + r[..|r| - 1];
      TrimRemoves(l, t, r[..|r| - 1]);
    } else {
      assert s == t;
    }
  }

  lemma {:induction false} TrimSplits(s: string) returns (l: string, r: string)
    ensures Spaces(l) && Spaces(r) && s == l + TrimSpace(s) + r
    ensures TrimSpace(s) == [] || Tight(TrimSpace(s))
    decreases |s|
  {
    l, r := [], [];
    if s != [] && IsSpace(s[0]) {
      l, r := TrimSplits(s[1..]);
      l := [s[0]] + l;
    } else if s != [] && IsSpace(s[|s| - 1]) {
      l, r := TrimSplits(s[..|s| - 1]);
      r := r + [s[|s| - 1]];
    }
  }

  /** Both readers see past the unit and the white space. */
  lemma FrameIsRead(header: string, spec: string)
    requires Tight(spec)
    ensures Frames(header, spec) <==> SpecOf(header) == Some(spec)
  {
    if Frames(header, spec) {
      FrameIsTrimmed(header, spec);
    }
    if SpecOf(header) == Some(spec) {
      ReadIsFramed(header, spec);
    }
  }

  lemma FrameOf(before: string, between: string, spec: string, trailing: string, after: string)
    requires Spaces(before) && Spaces(between) && Spaces(trailing) && Spaces(after)
    ensures Frames(before + (UNIT + (between + spec + trailing)) + after, spec)
  {
    var end := trailing + after;
    assert Spaces(end);
    assert before + (UNIT + (between + spec + trailing)) + after == before + UNIT + between + spec + end;
  }

  lemma ReadIsFramed(header: string, spec: string)
    requires SpecOf(header) == Some(spec)
    ensures Frames(header, spec)
  {
    var value := TrimSpace(header);
    var rest := value[|UNIT|..];
    assert value == UNIT + rest;
    var before, after := TrimSplits(header);
    var between, trailing := TrimSplits(rest);
    FrameOf(before, between, spec, trailing, after);
  }

  lemma FrameIsTrimmed(header: string, spec: string)
    requires Tight(spec) && Frames(header, spec)
    ensures SpecOf(header) == Some(spec)
  {
    var before, between, after :|
      && Spaces(before) && Spaces(between) && Spaces(after)
      && header == before + UNIT + between + spec + after;
    var value := UNIT + between + spec;
    assert Tight(value) by {
      assert value[0] == 'b' && value[|value| - 1] == spec[|spec| - 1];
    }
    assert header == before + value + after;
    TrimRemoves(before, value, after);
    assert value[|UNIT|..] == between + spec + [];
    TrimRemoves(between, spec, []);
  }

  lemma SidesAreTight(start: string, end: string, r: RangeSpec)
    requires Sides(start, end, r)
    ensures Tight(start + "-" + end)
  {
    var spec := start + "-" + end;
    assert start != [] ==> spec[0] == start[0];
    assert end != [] ==> spec[|spec| - 1] == end[|end| - 1];
  }

  /** The texts on both sides of the dash, as both readers find them. */
  lemma DenotedSides(header: string, r: RangeSpec) returns (start: string, end: string)
    requires Denotes(header, r)
    ensures Sides(start, end, r)
    ensures SpecOf(header) == Some(start + "-" + end)
  {
    start, end :| Sides(start, end, r) && Frames(header, start + "-" + end);
    SidesAreTight(start, end, r);
    FrameIsRead(header, start + "-" + end);
  }

  lemma UnsignedParses(text: string)
    requires IsUnsignedDecimal(text)
    ensures AllDigits(text, 10) && !Signed(text)
    ensures ParseInt(text, 10) == if IsInt64(Value(text, 10)) then Some(Value(text, 10)) else None
  {
    assert '0' <= text[0] <= '9';
  }

  /** Digits hold neither separator, so the split of the header is the cut. */
  lemma SidesAreTheCut(spec: string, start: string, end: string, r: RangeSpec)
    requires spec == start + "-" + end && Sides(start, end, r)
    ensures spec != [] && ',' !in spec
    ensures Cut(spec, '-') == Some((start, end))
  {
    assert '-' !in start && ',' !in start && ',' !in end;
    assert spec[|start|] == '-';
    var c := Cut(spec, '-').value;
    CutIsUnique(start, end, c.0, c.1, '-');
  }

  lemma CutIsUnique(a: string, b: string, x: string, y: string, c: char)
    requires a + [c] + b == x + [c] + y
    requires c !in a && c !in x
    ensures a == x && b == y
  {
    var s := a + [c] + b;
    assert s[|a|] == c && s[|x|] == c;
    assert a == s[..|a|] && x == s[..|x|];
    assert b == s[|a| + 1..] && y == s[|x| + 1..];
  }

  /** The range that the two sides of an accepted header write. */
  function SidesRead(start: string, end: string): (r: RangeSpec)
    requires start != [] || end != []
    requires start != [] ==> IsUnsignedDecimal(start)
    requires end != [] ==> IsUnsignedDecimal(end)
    ensures Sides(start, end, r)
  {
    if start == [] then
      UnsignedParses(end);
      Suffix(Value(end, 10))
    else if end == [] then
      UnsignedParses(start);
      From(Value(start, 10))
    else
      UnsignedParses(start);
      UnsignedParses(end);
      Between(Value(start, 10), Value(end, 10))
  }

  function SpecRead(header: string): (r: RangeSpec)
    requires IsSingleRangeHeader(header)
    ensures Denotes(header, r) && WellFormed(r)
  {
    var (start, end) := Cut(SpecOf(header).value, '-').value;
    var r := SidesRead(start, end);
    assert SpecOf(header).value == start + "-" + end;
    SidesAreTight(start, end, r);
    FrameIsRead(header, start + "-" + end);
    r
  }

  /** The classifier accepts exactly the headers that denote one well-formed range
      of the standard. */
  lemma ClassifierIsExact(header: string)
    ensures IsSingleRangeHeader(header) <==> exists r :: Denotes(header, r) && WellFormed(r)
  {
    if IsSingleRangeHeader(header) {
      assert Denotes(header, SpecRead(header)) && WellFormed(SpecRead(header));
    }
    if r :| Denotes(header, r) && WellFormed(r) {
      var start, end := DenotedSides(header, r);
      SidesAreTheCut(start + "-" + end, start, end, r);
      if start != [] {
        UnsignedParses(start);
      }
      if end != [] {
        UnsignedParses(end);
      }
    }
  }

  ghost predicate Meets(result: Result<ByteRange>, r: RangeSpec, size: int) {
    match result
    case Ok(range) =>
      && 0 <= range.start <= range.end < size
      && forall i :: range.start <= i <= range.end <==> Selects(r, size, i)
    case Err(_) => forall i :: !Selects(r, size, i)
  }

  lemma WrittenParses(text: string, n: nat)
    requires Writes(text, n) && IsInt64(n)
    ensures ParseNonNegativeInt(text) == Some(n)
  {
    UnsignedParses(text);
  }

  lemma SidesMeetStandard(start: string, end: string, r: RangeSpec, size: int)
    requires Sides(start, end, r) && WellFormed(r) && size > 0
    ensures Meets(if start == [] then ParseSuffixRange(end, size) else ParseFrom(start, end, size), r, size)
  {
    match r
    case From(first) => WrittenParses(start, first);
    case Between(first, last) =>
      WrittenParses(start, first);
      WrittenParses(end, last);
    case Suffix(length) => WrittenParses(end, length);
  }

  /** For every header that denotes a well-formed range the parser returns exactly
      the bytes the standard selects, and fails exactly when there are none. */
  lemma ParserMeetsStandard(header: string, r: RangeSpec, size: int)
    requires Denotes(header, r) && WellFormed(r)
    ensures Meets(ParseRange(header, size), r, size)
  {
    var start, end := DenotedSides(header, r);
    SidesAreTheCut(start + "-" + end, start, end, r);
    if size > 0 {
      SidesMeetStandard(start, end, r, size);
    }
  }

  /** The classifier and the parser agree: an accepted header fails to parse
      exactly when the object is empty, the first position is past its end, or
      the suffix is empty. */
  lemma AcceptedHeadersParse(header: string, size: int)
    requires IsSingleRangeHeader(header)
    ensures
      var r := SpecRead(header);
      ParseRange(header, size).Err? <==>
        size <= 0 || (if r.Suffix? then r.length == 0 else r.first >= size)
  {
    var r := SpecRead(header);
    ParserMeetsStandard(header, r, size);
    if r.Suffix? {
      assert Selects(r, size, size - 1) <==> size > 0 && r.length > 0;
    } else {
      assert Selects(r, size, r.first) <==> r.first < size;
    }
  }

  predicate Unsigned(header: string) {
    match SpecOf(header)
    case None => true
    case Some(spec) =>
      match Cut(spec, '-')
      case None => true
      case Some((start, end)) => !Signed(start) && !Signed(end)
  }

  lemma UnsignedIsDecimal(text: string)
    requires ParseInt(text, 10).Some?
    ensures IsUnsignedDecimal(text) <==> !Signed(text)
  {
    if !Signed(text) {
      assert forall i :: 0 <= i < |text| ==> Digit(text[i], 10).Some?;
    }
  }

  /** The parser alone reads more than the classifier: it lets a position carry a
      sign. Apart from that it accepts nothing the classifier refuses. */
  lemma ParserIsLaxExactly(header: string, size: int)
    requires ParseRange(header, size).Ok?
    ensures IsSingleRangeHeader(header) <==> Unsigned(header)
  {
    var spec := SpecOf(header).value;
    var (start, end) := Cut(spec, '-').value;
    if start != [] {
      UnsignedIsDecimal(start);
    }
    if end != [] {
      UnsignedIsDecimal(end);
    }
  }

  lemma PlusDigitParses(c: char)
    requires '0' <= c <= '9'
    ensures ParseNonNegativeInt(['+', c]) == Some(c as int - '0' as int)
  {
    var text := ['+', c];
    assert text[1..] == [c];
    assert Value([c], 10) == c as int - '0' as int;
  }

  lemma PlainHeader(start: string, end: string)
    requires Tight(start + "-" + end) && '-' !in start && start != []
    ensures SpecOf(UNIT + (start + "-" + end)) == Some(start + "-" + end)
    ensures Cut(start + "-" + end, '-') == Some((start, end))
  {
    var spec := start + "-" + end;
    FrameOf([], [], spec, [], []);
    assert UNIT + spec == [] + (UNIT + ([] + spec + [])) + [];
    FrameIsTrimmed(UNIT + spec, spec);
    assert spec[|start|] == '-';
    CutIsUnique(start, end, Cut(spec, '-').value.0, Cut(spec, '-').value.1, '-');
  }

  lemma SignedSidesParse(a: char, b: char)
    requires '0' <= a <= b <= '8'
    ensures ParseFrom(['+', a], ['+', b], 9) == Ok(ByteRange(a as int - '0' as int, b as int - '0' as int))
  {
    PlusDigitParses(a);
    PlusDigitParses(b);
  }

  /** For example, a sign on both positions. */
  lemma SignedHeaderParses(a: char, b: char)
    requires '0' <= a <= b <= '8'
    ensures
      var header := UNIT + (['+', a] + "-" + ['+', b]);
      && ParseRange(header, 9) == Ok(ByteRange(a as int - '0' as int, b as int - '0' as int))
      && !IsSingleRangeHeader(header)
  {
    var start, end := ['+', a], ['+', b];
    PlainHeader(start, end);
    SignedSidesParse(a, b);
    assert ParseRange(UNIT + (start + "-" + end), 9) == ParseFrom(start, end, 9);
    ParserIsLaxExactly(UNIT + (start + "-" + end), 9);
  }
}
