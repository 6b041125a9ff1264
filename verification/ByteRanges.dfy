/** The Range and Content-Range headers of RFC 7233. */
module ByteRanges {
  import opened ObjectIndexes
  import opened Decimal

  type u64 = n: nat | n < UINT64

  datatype Range = Range(start: u64, length: u64)

  /** start + length - 1 in unsigned 64-bit arithmetic. */
  function Last(r: Range): u64 { (r.start + r.length + (UINT64 - 1)) % UINT64 }

  function RangeHeader(r: Range): string {
    "bytes=" + FormatUint(r.start) + "-" + FormatUint(Last(r))
  }

  function ContentRangeHeader(r: Range, size: u64): string {
    "bytes " + FormatUint(r.start) + "-" + FormatUint(Last(r)) + "/" + FormatUint(size)
  }

  predicate Inside(r: Range, size: nat) { 1 <= r.length && r.start + r.length <= size }

  /** What a header parser returns: no header, an error, or a value. */
  datatype Parsed<T> = Absent | Invalid | Header(value: T)

  predicate HasPrefix(s: string, p: string) { |p| <= |s| && s[..|p|] == p }

  /* ---------- The client's Range header ---------- */

  function ParseEndRelativeRange(end: string, size: u64): (r: Option<Range>)
    requires size > 0
    ensures r.Some? ==> Inside(r.value, size)
  {
    var e := ParseUint(end);
    if e.None? || e.value == 0 then None
    else
      var ei := if e.value > size then size else e.value;
      Some(Range(size - ei, ei))
  }

  function ParseReqByteRange(start: string, end: string, size: u64): (r: Option<Range>)
    requires size > 0
    ensures r.Some? ==> Inside(r.value, size)
  {
    if start == "" then ParseEndRelativeRange(end, size)
    else
      var si := ParseUint(start);
      if si.None? || si.value >= size then None
      else if end == "" then Some(Range(si.value, size - si.value))
      else
        var e := ParseUint(end);
        if e.None? || si.value > e.value then None
        else
          var ei := if e.value >= size then size - 1 else e.value;
          Some(Range(si.value, ei - si.value + 1))
  }

  /** One element of the header's list, already trimmed. */
  function ReadSpec(p: string, size: u64): (r: Option<Range>)
    requires size > 0
    ensures r.Some? ==> Inside(r.value, size)
  {
    var i := Index(p, '-');
    if i < 0 then None else ParseReqByteRange(TrimSpace(p[..i]), TrimSpace(p[i + 1..]), size)
  }

  /** The trimmed elements of a list that are not blank. */
  function Specs(pieces: seq<string>): (r: seq<string>) {
    if pieces == [] then []
    else
      var p := TrimSpace(pieces[|pieces| - 1]);
      Specs(pieces[..|pieces| - 1]) + (if p == "" then [] else [p])
  }

  lemma SpecsSnoc(pieces: seq<string>, n: nat)
    requires n < |pieces|
    ensures Specs(pieces[..n + 1])
         == Specs(pieces[..n]) + (if TrimSpace(pieces[n]) == "" then [] else [TrimSpace(pieces[n])])
  {
    assert pieces[..n + 1][..n] == pieces[..n];
  }

  lemma {:induction false} SpecsPrefix(pieces: seq<string>, n: nat)
    requires n <= |pieces|
    ensures Specs(pieces[..n]) <= Specs(pieces)
    decreases |pieces| - n
  {
    if n == |pieces| {
      assert pieces[..n] == pieces;
    } else {
      SpecsSnoc(pieces, n);
      SpecsPrefix(pieces, n + 1);
    }
  }

  /** r is the right answer for the header s of a request for an object of the given size: one
      range for every element of the list that is not blank, in the order of the header, and an
      error if there is no such element or any one of them is wrong. */
  ghost predicate Parses(s: string, size: u64, r: Parsed<seq<Range>>) {
    if s == "" then r == Absent
    else if size == 0 || !HasPrefix(s, "bytes=") then r == Invalid
    else ParsesList(Specs(Split(s[6..], ',')), size, r)
  }

  ghost predicate ParsesList(specs: seq<string>, size: u64, r: Parsed<seq<Range>>)
    requires size > 0
  {
    match r
    case Absent => false
    case Invalid => specs == [] || exists k :: 0 <= k < |specs| && ReadSpec(specs[k], size) == None
    case Header(ranges) => ranges != [] && ReadsAll(specs, size, ranges)
  }

  ghost predicate ReadsAll(specs: seq<string>, size: u64, ranges: seq<Range>)
    requires size > 0
  {
    |ranges| == |specs| && forall k :: 0 <= k < |specs| ==> ReadSpec(specs[k], size) == Some(ranges[k])
  }

  method ParseRequestRange(s: string, size: u64) returns (r: Parsed<seq<Range>>)
    ensures Parses(s, size, r)
    ensures r.Header? ==> forall k :: 0 <= k < |r.value| ==> Inside(r.value[k], size)
  {
    if s == "" {
      return Absent;
    }
    if size == 0 || !HasPrefix(s, "bytes=") {
      return Invalid;
    }
    var ranges: seq<Range> := [];
    var pieces := Split(s[6..], ',');
    for n := 0 to |pieces|
      invariant ReadsAll(Specs(pieces[..n]), size, ranges)
    {
      SpecsSnoc(pieces, n);
      SpecsPrefix(pieces, n + 1);
      var ra := TrimSpace(pieces[n]);
      if ra == "" {
        continue;
      }
      assert Specs(pieces)[|Specs(pieces[..n])|] == ra;
      var i := Index(ra, '-');
      if i < 0 {
        return Invalid;
      }
      var range := ParseReqByteRange(TrimSpace(ra[..i]), TrimSpace(ra[i + 1..]), size);
      if range.None? {
        return Invalid;
      }
      ranges := ranges + [range.value];
    }
    assert pieces[..|pieces|] == pieces;
    if ranges == [] {
      return Invalid;
    }
    return Header(ranges);
  }

  /** A header has one right answer. */
  lemma OneAnswer(s: string, size: u64, a: Parsed<seq<Range>>, b: Parsed<seq<Range>>)
    requires Parses(s, size, a) && Parses(s, size, b)
    ensures a == b
  {
    if a.Header? && b.Header? {
      assert forall k :: 0 <= k < |a.value| ==> Some(a.value[k]) == Some(b.value[k]);
      assert a.value == b.value;
    }
  }

  /** The right answer, of which there is one for every header. */
  ghost function Answer(s: string, size: u64): (r: Parsed<seq<Range>>)
    ensures Parses(s, size, r) && forall a :: Parses(s, size, a) ==> a == r
  {
    var r :=
      if s == "" then Absent
      else if size == 0 || !HasPrefix(s, "bytes=") then Invalid
      else AnswerList(Specs(Split(s[6..], ',')), size);
    assert Parses(s, size, r);
    assert forall a :: Parses(s, size, a) ==> a == r by {
      forall a | Parses(s, size, a) ensures a == r { OneAnswer(s, size, a, r); }
    }
    r
  }

  ghost function AnswerList(specs: seq<string>, size: u64): (r: Parsed<seq<Range>>)
    requires size > 0
    ensures ParsesList(specs, size, r)
  {
    if specs == [] || exists k :: 0 <= k < |specs| && ReadSpec(specs[k], size) == None then Invalid
    else
      Header(seq(|specs|, k requires 0 <= k < |specs| && ReadSpec(specs[k], size).Some? =>
                            ReadSpec(specs[k], size).value))
  }

  /* ---------- Section 2.1 of RFC 7233 ---------- */

  /** A specification as it is spelled. White space next to the hyphen is not of the grammar, but the
      parser lets it pass. */
  datatype ByteSpec =
    | FromTo(first: Digits, left: string, right: string, last: Digits)
    | From(first: Digits, left: string)
    | Suffix(right: string, count: Digits)

  function PrintSpec(b: ByteSpec): (s: string) {
    match b
    case FromTo(first, left, right, last) => first + left + "-" + (right + last)
    case From(first, left) => first + left + "-"
    case Suffix(right, count) => "-" + (right + count)
  }

  predicate Loose(b: ByteSpec) {
    match b
    case FromTo(_, left, right, _) => AllSpace(left) && AllSpace(right)
    case From(_, left) => AllSpace(left)
    case Suffix(right, _) => AllSpace(right)
  }

  predicate Strict(b: ByteSpec) {
    match b
    case FromTo(_, left, right, _) => left == "" && right == ""
    case From(_, left) => left == ""
    case Suffix(right, _) => right == ""
  }

  /** Position k of an object of the given size is asked for. */
  predicate Covers(b: ByteSpec, size: nat, k: nat) {
    match b
    case FromTo(first, _, _, last) => Value(first) <= k <= Value(last) && k < size
    case From(first, _) => Value(first) <= k < size
    case Suffix(_, count) => size - Value(count) <= k < size
  }

  predicate Within(r: Range, k: nat) { r.start <= k < r.start + r.length }

  predicate Representable(b: ByteSpec) {
    match b
    case FromTo(first, _, _, last) => Value(first) < UINT64 && Value(last) < UINT64
    case From(first, _) => Value(first) < UINT64
    case Suffix(_, count) => Value(count) < UINT64
  }

  /** The specification asks for something, in numbers that the parser can hold. */
  ghost predicate Acceptable(b: ByteSpec, size: nat) {
    Representable(b) && exists k: nat :: Covers(b, size, k)
  }

  lemma AcceptableMeans(b: ByteSpec, size: nat)
    requires size > 0
    ensures (exists k: nat :: Covers(b, size, k))
         <==> (match b
               case FromTo(first, _, _, last) => Value(first) <= Value(last) && Value(first) < size
               case From(first, _) => Value(first) < size
               case Suffix(_, count) => Value(count) > 0)
  {
    hide Value;
    match b
    case FromTo(first, _, _, last) =>
      if Value(first) <= Value(last) && Value(first) < size { assert Covers(b, size, Value(first)); }
    case From(first, _) =>
      if Value(first) < size { assert Covers(b, size, Value(first)); }
    case Suffix(_, count) =>
      if Value(count) > 0 { assert Covers(b, size, size - 1); }
  }

  lemma DigitsAreBare(s: Digits)
    ensures Bare(s) && TrimSpace(s) == s
    ensures '-' !in s && ',' !in s && '/' !in s
  {
    TrimBare(s);
  }

  lemma TrimBare(s: string)
    requires Bare(s)
    ensures TrimSpace(s) == s
  {
    TrimPadded("", s, "");
    assert "" + s + "" == s;
  }

  lemma TrimEmpty()
    ensures TrimSpace("") == ""
  {
  }

  lemma PrintedShape(b: ByteSpec)
    requires Loose(b)
    ensures Bare(PrintSpec(b)) && ',' !in PrintSpec(b)
  {
    match b
    case FromTo(first, left, right, last) =>
      DigitsAreBare(first);
      DigitsAreBare(last);
      NoComma(left);
      NoComma(right);
    case From(first, left) =>
      DigitsAreBare(first);
      NoComma(left);
    case Suffix(right, count) =>
      DigitsAreBare(count);
      NoComma(right);
  }

  lemma NoComma(s: string)
    requires AllSpace(s)
    ensures ',' !in s && '-' !in s && '/' !in s
  {
  }

  /** How the printed specification splits at its hyphen. */
  lemma PrintedSplit(a: string, b: string)
    requires '-' !in a
    ensures Index(a + "-" + b, '-') == |a|
    ensures (a + "-" + b)[..|a|] == a && (a + "-" + b)[|a| + 1..] == b
  {
    IndexAfter(a, '-', b);
  }

  lemma ReadHyphen(a: string, b: string, size: u64)
    requires size > 0 && '-' !in a
    ensures ReadSpec(a + "-" + b, size) == ParseReqByteRange(TrimSpace(a), TrimSpace(b), size)
  {
    hide TrimSpace, ParseReqByteRange;
    PrintedSplit(a, b);
  }

  lemma TrimAfter(s: Digits, space: string)
    requires AllSpace(space)
    ensures TrimSpace(s + space) == s && TrimSpace(space + s) == s && '-' !in s + space
  {
    TrimPadded("", s, space);
    TrimPadded(space, s, "");
    NoComma(space);
    assert "" + s + space == s + space && space + s + "" == space + s;
  }

  /** A specification reaches the parser as its numbers. */
  lemma ReadParts(b: ByteSpec, size: u64)
    requires size > 0 && Loose(b)
    ensures ReadSpec(PrintSpec(b), size)
         == (match b
             case FromTo(first, _, _, last) => ParseReqByteRange(first, last, size)
             case From(first, _) => ParseReqByteRange(first, "", size)
             case Suffix(_, count) => ParseReqByteRange("", count, size))
  {
    hide TrimSpace, ReadSpec, ParseReqByteRange, AllSpace;
    TrimEmpty();
    match b
    case FromTo(first, left, right, last) =>
      TrimAfter(first, left);
      TrimAfter(last, right);
      ReadHyphen(first + left, right + last, size);
    case From(first, left) =>
      TrimAfter(first, left);
      ReadHyphen(first + left, "", size);
      assert PrintSpec(b) == first + left + "-" + "";
    case Suffix(right, count) =>
      TrimAfter(count, right);
      ReadHyphen("", right + count, size);
      assert PrintSpec(b) == "" + "-" + (right + count);
  }

  ghost predicate Agrees(b: ByteSpec, size: nat, r: Range) {
    forall k: nat :: Covers(b, size, k) <==> Within(r, k)
  }

  /** A specification, however its numbers are spelled, is read as exactly the positions it covers,
      and is refused exactly when it covers none or does not fit 64 bits. */
  lemma ReadPrinted(b: ByteSpec, size: u64)
    requires size > 0 && Loose(b)
    ensures ReadSpec(PrintSpec(b), size).Some? <==> Acceptable(b, size)
    ensures ReadSpec(PrintSpec(b), size).Some? ==> Agrees(b, size, ReadSpec(PrintSpec(b), size).value)
  {
    hide Value, ParseUint, ReadSpec, PrintSpec, Loose;
    AcceptableMeans(b, size);
    ReadParts(b, size);
    match b
    case FromTo(first, _, _, last) =>
      ParseOfDigits(first);
      ParseOfDigits(last);
    case From(first, _) =>
      ParseOfDigits(first);
    case Suffix(_, count) =>
      ParseOfDigits(count);
  }

  /** An element of the list: a specification with white space around it, or white space only. */
  datatype ListElement = Blank(space: string) | Element(before: string, spec: ByteSpec, after: string)

  /** The element is of the grammar: its white space is blanks and tabs, and around it only. */
  predicate Ruled(e: ListElement) {
    match e
    case Blank(space) => Blanks(space)
    case Element(before, b, after) => Blanks(before) && Blanks(after) && Strict(b)
  }

  /** The parser lets it pass. */
  predicate Spaced(e: ListElement) {
    match e
    case Blank(space) => AllSpace(space)
    case Element(before, b, after) => AllSpace(before) && AllSpace(after) && Loose(b)
  }

  lemma RuledIsSpaced(e: ListElement)
    requires Ruled(e)
    ensures Spaced(e)
  {
    match e
    case Blank(space) => BlanksAreSpace(space);
    case Element(before, b, after) =>
      BlanksAreSpace(before);
      BlanksAreSpace(after);
  }

  function Text(e: ListElement): string {
    match e
    case Blank(space) => space
    case Element(before, b, after) => before + PrintSpec(b) + after
  }

  function Texts(es: seq<ListElement>): (r: seq<string>)
    ensures |r| == |es| && forall k :: 0 <= k < |es| ==> r[k] == Text(es[k])
  {
    seq(|es|, k requires 0 <= k < |es| => Text(es[k]))
  }

  function SpecsIn(es: seq<ListElement>): seq<ByteSpec> {
    if es == [] then []
    else SpecsIn(es[..|es| - 1]) + (if es[|es| - 1].Blank? then [] else [es[|es| - 1].spec])
  }

  lemma TextTrimmed(e: ListElement)
    requires Spaced(e)
    ensures TrimSpace(Text(e)) == if e.Blank? then "" else PrintSpec(e.spec)
    ensures ',' !in Text(e)
  {
    match e
    case Blank(space) =>
      TrimBlank(space);
      NoComma(space);
    case Element(before, b, after) =>
      PrintedShape(b);
      NoComma(before);
      NoComma(after);
      TrimPadded(before, PrintSpec(b), after);
  }

  lemma {:induction false} SpecsOfTexts(es: seq<ListElement>)
    requires forall e :: e in es ==> Spaced(e)
    ensures var specs := Specs(Texts(es));
            |specs| == |SpecsIn(es)| && forall k :: 0 <= k < |specs| ==> specs[k] == PrintSpec(SpecsIn(es)[k])
  {
    if es != [] {
      var n := |es| - 1;
      SpecsOfTexts(es[..n]);
      assert Texts(es)[..n] == Texts(es[..n]);
      TextTrimmed(es[n]);
      if es[n].Element? { PrintedShape(es[n].spec); }
    }
  }

  lemma TextsHaveNoComma(es: seq<ListElement>)
    requires forall e :: e in es ==> Spaced(e)
    ensures forall p :: p in Texts(es) ==> ',' !in p
  {
    forall p | p in Texts(es) ensures ',' !in p {
      var k :| 0 <= k < |es| && p == Text(es[k]);
      TextTrimmed(es[k]);
    }
  }

  lemma HeaderSplits(es: seq<ListElement>, size: u64, r: Parsed<seq<Range>>)
    requires es != [] && size > 0 && forall e :: e in es ==> Spaced(e)
    requires Parses("bytes=" + Join(Texts(es), ','), size, r)
    ensures ParsesList(Specs(Texts(es)), size, r)
  {
    hide ParsesList, Specs, Split, Join;
    var s := "bytes=" + Join(Texts(es), ',');
    assert s[..6] == "bytes=" && s[6..] == Join(Texts(es), ',');
    TextsHaveNoComma(es);
    SplitJoin(Texts(es), ',');
  }

  /** A header of another unit is refused, and so is one that spells bytes with capital letters,
      although the quoted word of the grammar stands for all spellings (RFC 5234, section 2.3). */
  lemma UnitIsLowerCase(unit: string, rest: string, size: u64, r: Parsed<seq<Range>>)
    requires '=' !in unit && Parses(unit + "=" + rest, size, r)
    ensures unit != "bytes" ==> r == Invalid
  {
    var s := unit + "=" + rest;
    assert s[|unit|] == '=' && forall k :: 0 <= k < |unit| ==> s[k] == unit[k];
    if HasPrefix(s, "bytes=") {
      assert s[..6] == "bytes=";
      assert forall k :: 0 <= k < 6 ==> s[k] == s[..6][k] == "bytes="[k];
      assert s[5] == '=' && forall k :: 0 <= k < 5 ==> s[k] != '=';
      assert forall k :: 0 <= k < |unit| ==> unit[k] in unit;
      assert |unit| == 5;
      assert unit == s[..5];
    }
  }

  /** What is accepted, and as what: see HeaderMeans for the headers of the grammar and AcceptedOnly
      for all others. */
  ghost predicate Means(es: seq<ListElement>, size: nat, r: Parsed<seq<Range>>) {
    && (r.Header? <==> SpecsIn(es) != [] && forall b :: b in SpecsIn(es) ==> Acceptable(b, size))
    && (r.Header? ==> |r.value| == |SpecsIn(es)|)
    && (r.Header? ==> forall j :: 0 <= j < |r.value| ==> Agrees(SpecsIn(es)[j], size, r.value[j]))
  }

  lemma SpacedHeaderMeans(es: seq<ListElement>, size: u64, r: Parsed<seq<Range>>)
    requires es != [] && size > 0 && forall e :: e in es ==> Spaced(e)
    requires Parses("bytes=" + Join(Texts(es), ','), size, r)
    ensures Means(es, size, r)
  {
    hide Parses, Texts, Specs, SpecsIn, ReadSpec, PrintSpec, Agrees, Acceptable, Spaced, Loose;
    HeaderSplits(es, size, r);
    SpecsOfTexts(es);
    SpecsLoose(es);
    forall j | 0 <= j < |SpecsIn(es)|
      ensures ReadSpec(PrintSpec(SpecsIn(es)[j]), size).Some? <==> Acceptable(SpecsIn(es)[j], size)
      ensures ReadSpec(PrintSpec(SpecsIn(es)[j]), size).Some? ==>
                Agrees(SpecsIn(es)[j], size, ReadSpec(PrintSpec(SpecsIn(es)[j]), size).value)
    {
      ReadPrinted(SpecsIn(es)[j], size);
    }
  }

  lemma {:induction false} SpecsLoose(es: seq<ListElement>)
    requires forall e :: e in es ==> Spaced(e)
    ensures forall b :: b in SpecsIn(es) ==> Loose(b)
  {
    if es != [] {
      SpecsLoose(es[..|es| - 1]);
      assert Spaced(es[|es| - 1]);
    }
  }

  /** Any header that can be written by the rules of section 2.1, with the unit in lower case, blanks
      and tabs around the elements of the list and empty elements: it is accepted exactly when it
      holds at least one specification and all of them are acceptable, and then the ranges are the
      specifications, one for one and in order. */
  lemma HeaderMeans(es: seq<ListElement>, size: u64, r: Parsed<seq<Range>>)
    requires es != [] && size > 0 && forall e :: e in es ==> Ruled(e)
    requires Parses("bytes=" + Join(Texts(es), ','), size, r)
    ensures r.Header? <==> SpecsIn(es) != [] && forall b :: b in SpecsIn(es) ==> Acceptable(b, size)
    ensures r.Header? ==> |r.value| == |SpecsIn(es)|
    ensures r.Header? ==> forall j :: 0 <= j < |r.value| ==> Agrees(SpecsIn(es)[j], size, r.value[j])
  {
    hide Parses, Texts, SpecsIn, Agrees, Acceptable, Spaced, Ruled;
    forall e | e in es ensures Spaced(e) { RuledIsSpaced(e); }
    SpacedHeaderMeans(es, size, r);
  }

  /** Nothing else is accepted: an accepted header is one of the unit in lower case and of such
      elements, except that any white space will do, also next to a hyphen. */
  lemma AcceptedOnly(s: string, size: u64, r: Parsed<seq<Range>>) returns (es: seq<ListElement>)
    requires Parses(s, size, r) && r.Header?
    ensures size > 0 && es != [] && (forall e :: e in es ==> Spaced(e)) && s == "bytes=" + Join(Texts(es), ',')
    ensures Means(es, size, r)
  {
    hide ReadSpec, Means, Texts, Split, Join, Specs, Spaced;
    var pieces := Split(s[6..], ',');
    JoinSplit(s[6..], ',');
    assert s == s[..6] + s[6..];
    es := ElementsOf(pieces, size);
    SpacedHeaderMeans(es, size, r);
  }

  lemma {:induction false} ElementsOf(pieces: seq<string>, size: u64) returns (es: seq<ListElement>)
    requires size > 0 && forall q :: q in Specs(pieces) ==> ReadSpec(q, size).Some?
    ensures Texts(es) == pieces && forall e :: e in es ==> Spaced(e)
  {
    hide ReadSpec, Spaced, TrimSpace;
    es := [];
    if pieces != [] {
      var n := |pieces| - 1;
      var most := ElementsOf(pieces[..n], size);
      var e := ElementOf(pieces[n], size);
      es := most + [e];
      TextsSnoc(most, e);
    }
  }

  lemma TextsSnoc(es: seq<ListElement>, e: ListElement)
    ensures Texts(es + [e]) == Texts(es) + [Text(e)]
  {
  }

  lemma ElementOf(p: string, size: u64) returns (e: ListElement)
    requires size > 0 && (TrimSpace(p) != "" ==> ReadSpec(TrimSpace(p), size).Some?)
    ensures Text(e) == p && Spaced(e)
  {
    hide ReadSpec, TrimSpace, PrintSpec, Loose;
    var before, after := TrimParts(p);
    if TrimSpace(p) == "" {
      assert p == before + after;
      e := Blank(p);
    } else {
      var b := SpecOf(TrimSpace(p), size);
      e := Element(before, b, after);
    }
  }

  lemma SpecOf(q: string, size: u64) returns (b: ByteSpec)
    requires size > 0 && Bare(q) && ReadSpec(q, size).Some?
    ensures Loose(b) && PrintSpec(b) == q
  {
    hide TrimSpace, Bare, AllSpace, ReadSpec, PrintSpec, Loose, AllDigits;
    var a, z := HyphenParts(q, size);
    var w, left := TrimParts(a);
    var right, v := TrimParts(z);
    b := Spelled(q, w, TrimSpace(a), left, right, TrimSpace(z), v);
  }

  /** The white space at the ends of a trimmed specification is none. */
  lemma Spelled(q: string, w: string, first: string, left: string, right: string, last: string, v: string)
    returns (b: ByteSpec)
    requires Bare(q) && q == (w + first + left) + "-" + (right + last + v)
    requires AllSpace(w) && AllSpace(left) && AllSpace(right) && AllSpace(v)
    requires (first == "" || AllDigits(first)) && (last == "" || AllDigits(last)) && (first != "" || last != "")
    ensures Loose(b) && PrintSpec(b) == q
  {
    hide Bare, AllSpace, AllDigits;
    assert q == w + (first + left + "-" + (right + last + v));
    NothingBefore(q, w, first + left + "-" + (right + last + v));
    assert q == (first + left + "-" + (right + last)) + v;
    NothingAfter(q, first + left + "-" + (right + last), v);
    if first == "" {
      NothingBefore(q, left, "-" + (right + last));
      b := Suffix(right, last);
    } else if last == "" {
      NothingAfter(q, first + left + "-", right);
      b := From(first, left);
    } else {
      b := FromTo(first, left, right, last);
    }
  }

  lemma HyphenParts(q: string, size: u64) returns (a: string, z: string)
    requires size > 0 && ReadSpec(q, size).Some?
    ensures q == a + "-" + z
    ensures var first, last := TrimSpace(a), TrimSpace(z);
            (first == "" || AllDigits(first)) && (last == "" || AllDigits(last)) && (first != "" || last != "")
  {
    hide TrimSpace, ParseReqByteRange;
    var i := Index(q, '-');
    a, z := q[..i], q[i + 1..];
    assert q == a + "-" + z;
    NumbersRead(TrimSpace(a), TrimSpace(z), size);
  }

  lemma NumbersRead(start: string, end: string, size: u64)
    requires size > 0 && ParseReqByteRange(start, end, size).Some?
    ensures (start == "" || AllDigits(start)) && (end == "" || AllDigits(end)) && (start != "" || end != "")
  {
    hide Value;
  }

  lemma NothingBefore(q: string, w: string, rest: string)
    requires Bare(q) && AllSpace(w) && q == w + rest
    ensures w == ""
  {
    assert forall k :: 0 <= k < |w| ==> q[k] == w[k];
  }

  lemma NothingAfter(q: string, rest: string, w: string)
    requires Bare(q) && AllSpace(w) && q == rest + w
    ensures w == ""
  {
    assert forall k :: 0 <= k < |w| ==> q[|rest| + k] == w[k];
  }

  lemma SameRange(a: Range, b: Range)
    requires a.length > 0 && forall k: nat :: Within(a, k) <==> Within(b, k)
    ensures a == b
  {
    assert Within(a, a.start) && Within(a, a.start + a.length - 1) && !Within(a, a.start + a.length);
    if a.start > 0 { assert !Within(a, a.start - 1); }
    assert Within(b, a.start) && Within(b, a.start + a.length - 1) && !Within(b, a.start + a.length);
    if b.start > 0 { assert !Within(b, b.start - 1); }
    assert Within(b, b.start);
    assert Within(b, b.start + b.length - 1);
  }

  lemma HeaderOfOne(r: Range, size: u64, back: Parsed<seq<Range>>)
    requires size > 0 && Parses(RangeHeader(r), size, back)
    ensures var b := FromTo(FormatUint(r.start), "", "", FormatUint(Last(r)));
            if Acceptable(b, size)
            then back.Header? && |back.value| == 1 && Agrees(b, size, back.value[0]) else back == Invalid
  {
    hide Acceptable, Agrees, Parses, FormatUint, Last, Value;
    var b := FromTo(FormatUint(r.start), "", "", FormatUint(Last(r)));
    var es := [Element("", b, "")];
    assert "" + PrintSpec(b) + "" == PrintSpec(b);
    assert PrintSpec(b) == FormatUint(r.start) + "-" + FormatUint(Last(r));
    assert Texts(es) == [PrintSpec(b)];
    assert RangeHeader(r) == "bytes=" + Join(Texts(es), ',');
    assert es[..0] == [];
    assert SpecsIn(es) == [b];
    HeaderMeans(es, size, back);
    assert b in SpecsIn(es);
    ParsesNotAbsent(r, size, back);
  }

  lemma ParsesNotAbsent(r: Range, size: u64, back: Parsed<seq<Range>>)
    requires size > 0 && Parses(RangeHeader(r), size, back)
    ensures back != Absent
  {
    hide FormatUint, Last;
  }

  /** A range survives the trip to an upstream through its header exactly when it is not empty
      and lies inside the object. */
  lemma RangeHeaderRoundTrip(r: Range, size: u64, back: Parsed<seq<Range>>)
    requires size > 0 && Parses(RangeHeader(r), size, back)
    ensures back == Header([r]) <==> Inside(r, size)
  {
    hide Parses, RangeHeader, FormatUint, Value;
    ValueOfFormat(r.start);
    ValueOfFormat(Last(r));
    var b := FromTo(FormatUint(r.start), "", "", FormatUint(Last(r)));
    HeaderOfOne(r, size, back);
    AcceptableMeans(b, size);
    if Inside(r, size) {
      assert Last(r) == r.start + r.length - 1;
      SameRange(r, back.value[0]);
      assert back.value == [r];
    } else if r.length > 0 && r.start + r.length > size {
      assert !Covers(b, size, r.start + r.length - 1);
      assert Within(r, r.start + r.length - 1);
    }
  }

  /* ---------- The upstream's Content-Range header ---------- */

  datatype ContentRange = ContentRange(start: nat, length: nat, objSize: nat)

  function ParseResponseContentRange(header: string): (r: Parsed<ContentRange>)
    ensures r == Absent <==> header == ""
    ensures r.Header? ==> r.value.length > 0
    ensures r.Header? ==> r.value.start + r.value.length <= r.value.objSize < UINT64
  {
    if header == "" then Absent
    else if !HasPrefix(header, "bytes ") then Invalid
    else
      var cr := TrimSpace(header[6..]);
      var slash := Index(cr, '/');
      if slash < 0 then Invalid
      else
        var size := ParseUint(TrimSpace(cr[slash + 1..]));
        var span := TrimSpace(cr[..slash]);
        var dash := Index(span, '-');
        if size.None? || dash < 0 then Invalid
        else
          var start := ParseUint(TrimSpace(span[..dash]));
          var end := ParseUint(TrimSpace(span[dash + 1..]));
          if start.None? || end.None? then Invalid
          else if start.value > end.value || end.value >= size.value then Invalid
          else Header(ContentRange(start.value, end.value - start.value + 1, size.value))
  }

  lemma ReadSpan(a: string, b: string)
    requires Bare(a) && Bare(b) && '-' !in a && TrimSpace(a) == a && TrimSpace(b) == b
    ensures var span := TrimSpace(a + "-" + b);
            var dash := Index(span, '-');
            dash >= 0 && TrimSpace(span[..dash]) == a && TrimSpace(span[dash + 1..]) == b
  {
    hide TrimSpace;
    var span := a + "-" + b;
    TrimBare(span);
    PrintedSplit(a, b);
  }

  lemma ReadTotal(span: string, total: string)
    requires Bare(span) && Bare(total) && '/' !in span && TrimSpace(total) == total
    ensures var cr := TrimSpace(span + "/" + total);
            var slash := Index(cr, '/');
            slash >= 0 && cr[..slash] == span && TrimSpace(cr[slash + 1..]) == total
  {
    hide TrimSpace;
    var cr := span + "/" + total;
    TrimBare(cr);
    IndexAfter(span, '/', total);
    assert cr[..|span|] == span && cr[|span| + 1..] == total;
  }

  /** A header of three numbers, however they are spelled, is read as what they say if that is a
      range inside the object, in numbers that the parser can hold, and refused otherwise. */
  lemma ContentRangeMeans(first: Digits, last: Digits, total: Digits)
    ensures ParseResponseContentRange("bytes " + first + "-" + last + "/" + total)
         == var a, b, c := Value(first), Value(last), Value(total);
            if a <= b < c < UINT64 then Header(ContentRange(a, b - a + 1, c)) else Invalid
  {
    hide Value, ParseUint, TrimSpace, Index, AllDigits;
    var header := "bytes " + first + "-" + last + "/" + total;
    var span := first + "-" + last;
    assert header[..6] == "bytes " && header[6..] == span + "/" + total;
    DigitsAreBare(first);
    DigitsAreBare(last);
    DigitsAreBare(total);
    ReadTotal(span, total);
    ReadSpan(first, last);
    ParseOfDigits(first);
    ParseOfDigits(last);
    ParseOfDigits(total);
  }

  /** What the header prints is what the parser returns, for every range that is not empty and lies
      inside the object; every other one is refused. */
  lemma ContentRangeRoundTrip(r: Range, size: u64)
    ensures ParseResponseContentRange(ContentRangeHeader(r, size))
         == if Inside(r, size) then Header(ContentRange(r.start, r.length, size)) else Invalid
  {
    hide FormatUint, Value, ParseResponseContentRange;
    ContentRangeMeans(FormatUint(r.start), FormatUint(Last(r)), FormatUint(size));
    ValueOfFormat(r.start);
    ValueOfFormat(Last(r));
    ValueOfFormat(size);
  }

  /** The places of a header of three numbers where the parser lets white space pass. */
  datatype Spaces = Spaces(before: string, left: string, right: string, middle: string, behind: string, after: string)

  predicate AllSpaces(w: Spaces) {
    AllSpace(w.before) && AllSpace(w.left) && AllSpace(w.right) && AllSpace(w.middle) && AllSpace(w.behind)
    && AllSpace(w.after)
  }

  function Spread(w: Spaces, first: string, last: string, total: string): string {
    "bytes " + (w.before + (first + w.left + "-" + (w.right + last)) + w.middle + "/" + (w.behind + total + w.after))
  }

  /** Nothing but three numbers is accepted, with any white space around them, and they are taken for
      what they say. */
  lemma ContentRangeOnly(header: string) returns (w: Spaces, first: Digits, last: Digits, total: Digits)
    requires ParseResponseContentRange(header).Header?
    ensures AllSpaces(w) && header == Spread(w, first, last, total)
    ensures Value(first) <= Value(last) < Value(total) < UINT64
    ensures ParseResponseContentRange(header)
         == Header(ContentRange(Value(first), Value(last) - Value(first) + 1, Value(total)))
  {
    hide Value, Index, TrimSpace, AllSpace;
    var cr := TrimSpace(header[6..]);
    var slash := Index(cr, '/');
    var span := TrimSpace(cr[..slash]);
    var dash := Index(span, '-');
    first, last := TrimSpace(span[..dash]), TrimSpace(span[dash + 1..]);
    total := TrimSpace(cr[slash + 1..]);
    var before, after := TrimParts(header[6..]);
    var none, middle := TrimParts(cr[..slash]);
    var behind, more := TrimParts(cr[slash + 1..]);
    var start, left := TrimParts(span[..dash]);
    var right, end := TrimParts(span[dash + 1..]);
    AllSpaceConcat(before, none);
    AllSpaceConcat(before + none, start);
    AllSpaceConcat(end, middle);
    AllSpaceConcat(more, after);
    w := Spaces(before + none + start, left, right, end + middle, behind, more + after);
    assert header == header[..6] + header[6..];
    assert cr == cr[..slash] + "/" + cr[slash + 1..];
    assert span == span[..dash] + "-" + span[dash + 1..];
    Regrouped(before, none, start, first, left, right, last, end, middle, behind, total, more, after);
  }

  lemma AllSpaceConcat(a: string, b: string)
    requires AllSpace(a) && AllSpace(b)
    ensures AllSpace(a + b)
  {
  }

  lemma Regrouped(before: string, none: string, start: string, first: string, left: string, right: string, last: string,
                  end: string, middle: string, behind: string, total: string, more: string, after: string)
    ensures before + ((none + ((start + first + left) + "-" + (right + last + end)) + middle)
                      + "/" + (behind + total + more)) + after
         == (before + none + start) + (first + left + "-" + (right + last)) + (end + middle)
            + "/" + (behind + total + (more + after))
  {
  }
}
