/** The lens for fstab and mtab: one line is one record, and a table is a list of lines. */
module Fstab {
  import opened Core
  import opened Text
  import opened Augeas

  /* ---- records ---- */

  /** `extra` holds options, dump and passno, of which each needs the one before it. */
  datatype Record = Record(spec: string, file: string, vfstype: string, extra: seq<string>, remark: Option<string>)

  predicate IsBlank(c: char) {
    c == ' ' || c == '\t'
  }

  predicate Blanks(s: string) {
    forall i :: 0 <= i < |s| ==> IsBlank(s[i])
  }

  predicate Gap(s: string) {
    s != "" && Blanks(s)
  }

  /** A run of characters without blanks and line ends. */
  predicate Solid(s: string) {
    s != "" && forall i :: 0 <= i < |s| ==> !IsBlank(s[i]) && s[i] != '\n'
  }

  /** `/[^# \t\n]+/` */
  predicate IsFile(s: string) {
    Solid(s) && '#' !in s
  }

  /** `/[^,# \n\t][^ \n\t]*` */
  predicate IsSpec(s: string) {
    Solid(s) && s[0] != ',' && s[0] != '#'
  }

  predicate IsNumber(s: string) {
    s != "" && AllDigits(s, 10)
  }

  /** The text of a comment neither starts nor ends with a blank. */
  predicate IsRemark(s: string) {
    s != "" && '\n' !in s && !IsBlank(s[0]) && !IsBlank(s[|s| - 1])
  }

  predicate WellFormed(r: Record): (b: bool)
    ensures b ==> |r.extra| <= 3 && IsSpec(r.spec)
  {
    && IsSpec(r.spec) && IsFile(r.file) && IsFile(r.vfstype)
    && |r.extra| <= 3
    && (|r.extra| >= 1 ==> IsFile(r.extra[0]))
    && (|r.extra| >= 2 ==> IsNumber(r.extra[1]))
    && (|r.extra| >= 3 ==> IsNumber(r.extra[2]))
    && (r.remark.Some? ==> IsRemark(r.remark.value))
  }

  /* ---- printing with any separators ---- */

  /** The ends of a line: blanks, and a comment if there is one. */
  datatype Layout = Layout(gaps: seq<string>, before: string, after: string, trailing: string)

  predicate GoodLayout(l: Layout, n: nat) {
    && |l.gaps| == n
    && (forall i :: 0 <= i < n ==> Gap(l.gaps[i]))
    && Blanks(l.before) && Blanks(l.after) && Blanks(l.trailing)
  }

  function Body(words: seq<string>, gaps: seq<string>): string
    requires |words| == |gaps|
  {
    if words == [] then "" else gaps[0] + words[0] + Body(words[1..], gaps[1..])
  }

  function WordsOf(r: Record): seq<string> {
    [r.file, r.vfstype] + r.extra
  }

  function LineEnd(r: Record, l: Layout): string {
    l.before + match r.remark { case None => "" case Some(t) => "#" + l.after + t + l.trailing }
  }

  function Print(r: Record, l: Layout): string
    requires |l.gaps| == |r.extra| + 2
  {
    r.spec + (Body(WordsOf(r), l.gaps) + LineEnd(r, l))
  }

  /* ---- parsing ---- */

  function SkipBlanks(s: string): (t: string)
    ensures |t| <= |s| && (t != "" ==> !IsBlank(t[0]))
  {
    if s != "" && IsBlank(s[0]) then SkipBlanks(s[1..]) else s
  }

  function DropBlanks(s: string): (t: string)
    ensures |t| <= |s| && (t != "" ==> !IsBlank(t[|t| - 1]))
  {
    if s != "" && IsBlank(s[|s| - 1]) then DropBlanks(s[..|s| - 1]) else s
  }

  /** The longest prefix without blanks. */
  function TakeWord(s: string): (w: string)
    ensures |w| <= |s| && w == s[..|w|]
    ensures forall i :: 0 <= i < |w| ==> !IsBlank(w[i])
    ensures |w| < |s| ==> IsBlank(s[|w|])
  {
    if s == "" || IsBlank(s[0]) then ""
    else
      var w := [s[0]] + TakeWord(s[1..]);
      w
  }

  function Words(s: string): seq<string>
    decreases |s|
  {
    var t := SkipBlanks(s);
    if t == "" then []
    else
      var w := TakeWord(t);
      [w] + Words(t[|w|..])
  }

  /** What comes before the first '#'. */
  function BeforeHash(s: string): (b: string)
    ensures b <= s && '#' !in b
    ensures |b| < |s| ==> s[|b|] == '#'
  {
    if s == "" || s[0] == '#' then "" else [s[0]] + BeforeHash(s[1..])
  }

  function Parse(line: string): Option<Record> {
    var spec := TakeWord(line);
    var rest := line[|spec|..];
    var body := BeforeHash(rest);
    var words := Words(body);
    var remark := if |body| == |rest| then None else Some(DropBlanks(SkipBlanks(rest[|body| + 1..])));
    if '\n' in line || !(2 <= |words| <= 5) then None
    else
      var r := Record(spec, words[0], words[1], words[2..], remark);
      if WellFormed(r) then Some(r) else None
  }

  /* ---- parsing inverts printing ---- */

  lemma {:induction false} SkipGap(gap: string, s: string)
    requires Blanks(gap) && (s != "" ==> !IsBlank(s[0]))
    ensures SkipBlanks(gap + s) == s
  {
    if gap == "" {
      assert gap + s == s;
    } else {
      assert (gap + s)[1..] == gap[1..] + s;
      SkipGap(gap[1..], s);
    }
  }

  lemma {:induction false} DropGap(s: string, gap: string)
    requires Blanks(gap) && (s != "" ==> !IsBlank(s[|s| - 1]))
    ensures DropBlanks(s + gap) == s
  {
    if gap == "" {
      assert s + gap == s;
    } else {
      var t := s + gap;
      assert t[..|t| - 1] == s + gap[..|gap| - 1];
      DropGap(s, gap[..|gap| - 1]);
    }
  }

  lemma {:induction false} TakeSolid(w: string, tail: string)
    requires forall i :: 0 <= i < |w| ==> !IsBlank(w[i])
    requires tail != "" ==> IsBlank(tail[0])
    ensures TakeWord(w + tail) == w
  {
    if w == "" {
      assert w + tail == tail;
    } else {
      assert (w + tail)[1..] == w[1..] + tail;
      TakeSolid(w[1..], tail);
    }
  }

  lemma WordsStep(gap: string, w: string, more: string)
    requires Gap(gap) && Solid(w) && (more == "" || IsBlank(more[0]))
    ensures Words(gap + (w + more)) == [w] + Words(more)
    ensures IsBlank((gap + (w + more))[0])
  {
    SkipGap(gap, w + more);
    TakeSolid(w, more);
    assert (w + more)[|w|..] == more;
  }

  lemma NoWords(tail: string)
    requires Blanks(tail)
    ensures Words(tail) == [] && (tail != "" ==> IsBlank(tail[0]))
  {
    assert tail + "" == tail;
    SkipGap(tail, "");
  }

  lemma {:induction false} WordsOfBody(words: seq<string>, gaps: seq<string>, tail: string)
    requires |words| == |gaps| && Blanks(tail)
    requires forall i :: 0 <= i < |words| ==> Solid(words[i]) && Gap(gaps[i])
    ensures Words(Body(words, gaps) + tail) == words
    ensures var s := Body(words, gaps) + tail; s != "" ==> IsBlank(s[0])
  {
    hide Words, Solid, Blanks, Gap, IsBlank;
    if words == [] {
      assert Body(words, gaps) + tail == tail;
      NoWords(tail);
    } else {
      var more := Body(words[1..], gaps[1..]) + tail;
      WordsOfBody(words[1..], gaps[1..], tail);
      WordsStep(gaps[0], words[0], more);
      assert Body(words, gaps) + tail == gaps[0] + (words[0] + more);
      assert words == [words[0]] + words[1..];
    }
  }

  lemma {:induction false} HashFree(s: string, tail: string)
    requires '#' !in s && (tail == "" || tail[0] == '#')
    ensures BeforeHash(s + tail) == s
  {
    if s == "" {
      assert s + tail == tail;
    } else {
      assert s[0] in s && (s + tail)[1..] == s[1..] + tail;
      HashFree(s[1..], tail);
    }
  }

  predicate Plain(s: string) {
    '#' !in s && '\n' !in s
  }

  lemma BlanksPlain(s: string)
    requires Blanks(s)
    ensures Plain(s)
  {
  }

  lemma NumberIsFile(s: string)
    requires IsNumber(s)
    ensures IsFile(s)
  {
    forall i | 0 <= i < |s| ensures !IsBlank(s[i]) && s[i] != '\n' && s[i] != '#' {
      assert s[i] in s;
    }
  }

  lemma {:induction false} BodyPlain(words: seq<string>, gaps: seq<string>)
    requires |words| == |gaps|
    requires forall i :: 0 <= i < |words| ==> IsFile(words[i]) && Gap(gaps[i])
    ensures Plain(Body(words, gaps))
  {
    if words != [] {
      BodyPlain(words[1..], gaps[1..]);
      BlanksPlain(gaps[0]);
      assert Plain(words[0]);
    }
  }

  lemma WordsAreFiles(r: Record)
    requires WellFormed(r)
    ensures forall i :: 0 <= i < |WordsOf(r)| ==> IsFile(WordsOf(r)[i])
  {
    if |r.extra| >= 2 { NumberIsFile(r.extra[1]); }
    if |r.extra| >= 3 { NumberIsFile(r.extra[2]); }
  }

  function Mark(r: Record, l: Layout): string {
    match r.remark
    case None => ""
    case Some(t) => "#" + (l.after + (t + l.trailing))
  }

  /** How a line falls into specification, body and comment. */
  lemma LineParts(spec: string, body: string, mark: string)
    requires Solid(spec) && Plain(body) && body != "" && IsBlank(body[0])
    requires mark == "" || mark[0] == '#'
    ensures var line := spec + (body + mark);
            && TakeWord(line) == spec
            && line[|spec|..] == body + mark
            && BeforeHash(body + mark) == body
  {
    assert (body + mark)[0] == body[0];
    TakeSolid(spec, body + mark);
    HashFree(body, mark);
  }

  /** The comment that is found after the '#'. */
  lemma MarkText(body: string, r: Record, l: Layout)
    requires r.remark.Some? ==> IsRemark(r.remark.value)
    requires Blanks(l.after) && Blanks(l.trailing)
    ensures var mark := Mark(r, l);
            && (mark == "" || mark[0] == '#') && '\n' !in mark
            && (r.remark.None? <==> mark == "")
            && (r.remark.Some? ==> DropBlanks(SkipBlanks((body + mark)[|body| + 1..])) == r.remark.value)
  {
    BlanksPlain(l.after);
    BlanksPlain(l.trailing);
    if r.remark.Some? {
      var t := r.remark.value;
      assert (body + Mark(r, l))[|body| + 1..] == l.after + (t + l.trailing);
      SkipGap(l.after, t + l.trailing);
      DropGap(t, l.trailing);
    }
  }

  /** The words that are found in the body. */
  lemma BodyParts(r: Record, l: Layout)
    requires WellFormed(r) && GoodLayout(l, |r.extra| + 2)
    ensures var body := Body(WordsOf(r), l.gaps) + l.before;
            && body != "" && IsBlank(body[0]) && Plain(body)
            && Words(body) == WordsOf(r)
  {
    WordsAreFiles(r);
    WordsOfBody(WordsOf(r), l.gaps, l.before);
    BodyPlain(WordsOf(r), l.gaps);
    BlanksPlain(l.before);
  }

  lemma PrintParts(r: Record, l: Layout)
    requires |l.gaps| == |r.extra| + 2
    ensures Print(r, l) == r.spec + ((Body(WordsOf(r), l.gaps) + l.before) + Mark(r, l))
  {
    if r.remark.Some? {
      var t := r.remark.value;
      assert "#" + l.after + t + l.trailing == "#" + (l.after + (t + l.trailing));
    }
    var b := Body(WordsOf(r), l.gaps);
    assert b + (l.before + Mark(r, l)) == (b + l.before) + Mark(r, l);
  }

  /** Printing a record with any separators and parsing the line returns the record. */
  lemma ParseOfPrint(r: Record, l: Layout)
    requires WellFormed(r) && GoodLayout(l, |r.extra| + 2)
    ensures Parse(Print(r, l)) == Some(r)
  {
    hide Words, Body, BeforeHash, TakeWord, SkipBlanks, DropBlanks, Mark, Print, Plain;
    var body, mark := Body(WordsOf(r), l.gaps) + l.before, Mark(r, l);
    PrintParts(r, l);
    BodyParts(r, l);
    MarkText(body, r, l);
    LineParts(r.spec, body, mark);
    assert '\n' !in r.spec && '\n' !in body by { NoLineEnd(r, l); }
    assert WordsOf(r)[2..] == r.extra;
  }

  lemma NoLineEnd(r: Record, l: Layout)
    requires WellFormed(r) && GoodLayout(l, |r.extra| + 2)
    ensures '\n' !in r.spec && '\n' !in Body(WordsOf(r), l.gaps) + l.before
  {
    BodyParts(r, l);
  }

  /* ---- everything that parses is a printed record ---- */

  lemma {:induction false} SkipSplit(s: string)
    ensures exists gap :: Blanks(gap) && s == gap + SkipBlanks(s)
  {
    if s != "" && IsBlank(s[0]) {
      SkipSplit(s[1..]);
      var gap :| Blanks(gap) && s[1..] == gap + SkipBlanks(s[1..]);
      assert Blanks([s[0]] + gap) && s == ([s[0]] + gap) + SkipBlanks(s);
    } else {
      assert Blanks("") && s == "" + s;
    }
  }

  lemma {:induction false} DropSplit(s: string)
    ensures exists gap :: Blanks(gap) && s == DropBlanks(s) + gap
  {
    if s != "" && IsBlank(s[|s| - 1]) {
      var s' := s[..|s| - 1];
      DropSplit(s');
      var gap :| Blanks(gap) && s' == DropBlanks(s') + gap;
      assert Blanks(gap + [s[|s| - 1]]) && s == DropBlanks(s) + (gap + [s[|s| - 1]]);
    } else {
      assert Blanks("") && s == s + "";
    }
  }

  /** A text that starts with a blank, or is empty, is made of its words and some separators. */
  lemma {:induction false} BodyOfWords(s: string) returns (gaps: seq<string>, tail: string)
    requires s == "" || IsBlank(s[0])
    ensures |gaps| == |Words(s)| && (forall i :: 0 <= i < |gaps| ==> Gap(gaps[i])) && Blanks(tail)
    ensures s == Body(Words(s), gaps) + tail
    decreases |s|
  {
    var t := SkipBlanks(s);
    SkipSplit(s);
    var gap :| Blanks(gap) && s == gap + t;
    if t == "" {
      gaps, tail := [], s;
      assert s == gap;
    } else {
      var w := TakeWord(t);
      var more, end := BodyOfWords(t[|w|..]);
      gaps, tail := [gap] + more, end;
      assert gap != "";
      assert Words(s)[1..] == Words(t[|w|..]) && gaps[1..] == more;
      assert t == w + t[|w|..];
      assert s == gap + w + Body(Words(t[|w|..]), more) + end;
    }
  }

  /** The parts that `Parse` has found in a line. */
  lemma ParseShape(line: string) returns (r: Record, body: string, rest: string)
    requires Parse(line).Some?
    ensures r == Parse(line).value && WellFormed(r)
    ensures line == r.spec + rest && body <= rest
    ensures body == "" || IsBlank(body[0])
    ensures Words(body) == WordsOf(r)
    ensures if r.remark.None? then body == rest
            else |body| < |rest| && rest[|body|] == '#' && r.remark.value == DropBlanks(SkipBlanks(rest[|body| + 1..]))
  {
    hide Words, WellFormed;
    r := Parse(line).value;
    rest := line[|r.spec|..];
    body := BeforeHash(rest);
    assert Words(body) == WordsOf(r);
  }

  /** Only printed records parse, so the lens accepts exactly the lines that it can write. */
  lemma PrintOfParse(line: string) returns (l: Layout)
    requires Parse(line).Some?
    ensures var r := Parse(line).value;
            WellFormed(r) && GoodLayout(l, |r.extra| + 2) && Print(r, l) == line
  {
    hide Words, WellFormed, Parse, Body, Print, SkipBlanks, DropBlanks;
    var r, body, rest := ParseShape(line);
    var gaps, before := BodyOfWords(body);
    var after, trailing := "", "";
    if r.remark.Some? {
      var note := rest[|body| + 1..];
      SkipSplit(note);
      DropSplit(SkipBlanks(note));
      after :| Blanks(after) && note == after + SkipBlanks(note);
      trailing :| Blanks(trailing) && SkipBlanks(note) == r.remark.value + trailing;
      assert rest == body + ("#" + note);
    } else {
      assert rest == body + "";
    }
    l := Layout(gaps, before, after, trailing);
    PrintParts(r, l);
    assert rest == body + Mark(r, l);
  }

  /* ---- records as children of an entry ---- */

  function ExtraField(i: nat): Field {
    if i == 0 then Options else if i == 1 then Dump else PassNo
  }

  function ExtraChildren(extra: seq<string>): seq<Child>
    requires |extra| <= 3
  {
    seq(|extra|, i requires 0 <= i < |extra| => Child(ExtraField(i), extra[i]))
  }

  function RemarkChildren(remark: Option<string>): seq<Child> {
    match remark
    case None => []
    case Some(t) => [Child(Remark, t)]
  }

  function Children(r: Record): seq<Child>
    requires |r.extra| <= 3
  {
    [Child(Spec, r.spec), Child(MountPoint, r.file), Child(VfsType, r.vfstype)]
      + ExtraChildren(r.extra) + RemarkChildren(r.remark)
  }

  /** How many of options, dump and passno there are, each after the one before it. */
  function ExtraCount(cs: seq<Child>): (k: nat)
    ensures k <= |cs| && k <= 3
    ensures forall i :: 0 <= i < k ==> cs[i].field == ExtraField(i)
  {
    if |cs| < 1 || cs[0].field != Options then 0
    else if |cs| < 2 || cs[1].field != Dump then 1
    else if |cs| < 3 || cs[2].field != PassNo then 2
    else 3
  }

  function ValuesOf(cs: seq<Child>): seq<string> {
    seq(|cs|, i requires 0 <= i < |cs| => cs[i].value)
  }

  /** The record that the lens sees in a list of children, if it can print it. */
  function FromChildren(cs: seq<Child>): Option<Record> {
    if |cs| < 3 || cs[0].field != Spec || cs[1].field != MountPoint || cs[2].field != VfsType then None
    else
      var k := ExtraCount(cs[3..]);
      var tail := cs[3 + k..];
      if tail == [] || (|tail| == 1 && tail[0].field == Remark) then
        var r := Record(cs[0].value, cs[1].value, cs[2].value, ValuesOf(cs[3..3 + k]),
                        if tail == [] then None else Some(tail[0].value));
        if WellFormed(r) then Some(r) else None
      else None
  }

  lemma ExtraCountOf(extra: seq<string>, tail: seq<Child>)
    requires |extra| <= 3 && (tail != [] ==> tail[0].field == Remark)
    ensures ExtraCount(ExtraChildren(extra) + tail) == |extra|
  {
    var cs := ExtraChildren(extra) + tail;
    assert forall i :: 0 <= i < |extra| ==> cs[i].field == ExtraField(i);
    assert |extra| < |cs| ==> cs[|extra|] == tail[0];
  }

  lemma ValuesOfExtra(extra: seq<string>)
    requires |extra| <= 3
    ensures ValuesOf(ExtraChildren(extra)) == extra
  {
    assert |ValuesOf(ExtraChildren(extra))| == |extra|;
  }

  /** The lens sees in the children of a record just that record, and in no others. */
  lemma ChildrenRoundTrip(r: Record)
    requires WellFormed(r)
    ensures FromChildren(Children(r)) == Some(r)
  {
    hide WellFormed, ExtraChildren, ExtraCount, ValuesOf;
    var extra, tail := ExtraChildren(r.extra), RemarkChildren(r.remark);
    ExtraCountOf(r.extra, tail);
    ValuesOfExtra(r.extra);
    var cs := Children(r);
    ExtraChildrenSize(r.extra);
    assert cs[3..] == extra + tail;
    assert cs[3..3 + |extra|] == extra;
    assert cs[3 + |extra|..] == tail;
  }

  lemma ExtraChildrenSize(extra: seq<string>)
    requires |extra| <= 3
    ensures |ExtraChildren(extra)| == |extra|
  {
  }

  lemma ExtraOfValues(cs: seq<Child>)
    requires |cs| <= 3 && forall i :: 0 <= i < |cs| ==> cs[i].field == ExtraField(i)
    ensures ExtraChildren(ValuesOf(cs)) == cs
  {
  }

  lemma FromChildrenExact(cs: seq<Child>)
    requires FromChildren(cs).Some?
    ensures WellFormed(FromChildren(cs).value) && cs == Children(FromChildren(cs).value)
  {
    hide WellFormed, ExtraCount, ValuesOf, ExtraChildren;
    var r := FromChildren(cs).value;
    var k := ExtraCount(cs[3..]);
    assert r.extra == ValuesOf(cs[3..3 + k]);
    assert forall i :: 0 <= i < k ==> cs[3..3 + k][i] == cs[3..][i];
    ExtraOfValues(cs[3..3 + k]);
    assert RemarkChildren(r.remark) == cs[3 + k..];
    assert cs == cs[..3] + cs[3..3 + k] + cs[3 + k..];
    assert cs[..3] == [cs[0], cs[1], cs[2]];
  }

  /* ---- tables as text ---- */

  /** The separators of new lines: tabs, but a space before passno, and " # " before a comment. */
  function DefaultLayout(r: Record): (l: Layout)
    requires |r.extra| <= 3
    ensures GoodLayout(l, |r.extra| + 2)
  {
    var l := Layout(["\t", "\t", "\t", "\t", " "][..|r.extra| + 2], if r.remark.None? then "" else " ", " ", "");
    assert Blanks("\t") && Blanks(" ") && Blanks("");
    l
  }

  predicate FitsEntry(e: Entry) {
    if e.tag == Comment then e.children == [] && IsRemark(e.text)
    else e.text == "" && FromChildren(e.children).Some?
  }

  predicate FitsTable(t: Table) {
    forall i :: 0 <= i < |t| ==> FitsEntry(t[i])
  }

  function PrintEntry(e: Entry): string
    requires FitsEntry(e)
  {
    if e.tag == Comment then "# " + e.text
    else
      FromChildrenExact(e.children);
      var r := FromChildren(e.children).value;
      Print(r, DefaultLayout(r))
  }

  function PrintTable(t: Table): string
    requires FitsTable(t)
  {
    if t == [] then "" else PrintEntry(t[0]) + "\n" + PrintTable(t[1..])
  }

  datatype Row = Skipped | Row(e: Entry) | Bad

  /** One line: empty, a comment, or a record. */
  function ParseLine(line: string, n: nat): Row {
    var s := SkipBlanks(line);
    if s == "" then Skipped
    else if s[0] == '#' then
      var note := DropBlanks(SkipBlanks(s[1..]));
      if note == "" then Skipped else if IsRemark(note) then Row(Entry(Comment, note, [])) else Bad
    else
      match Parse(line)
      case None => Bad
      case Some(r) =>
        ParsedSize(line);
        Row(Entry(Line(n), "", Children(r)))
  }

  lemma ParsedSize(line: string)
    requires Parse(line).Some?
    ensures |Parse(line).value.extra| <= 3
  {
    hide Words;
  }

  function ParseLines(lines: seq<string>, n: nat): Option<Table> {
    if lines == [] then Some([])
    else
      match ParseLine(lines[0], n)
      case Bad => None
      case Skipped => ParseLines(lines[1..], n)
      case Row(e) =>
        match ParseLines(lines[1..], if e.tag == Comment then n else n + 1)
        case None => None
        case Some(t) => Some([e] + t)
  }

  /** A text is a list of lines, each of which ends with a line end. */
  function ParseTable(text: string): Option<Table> {
    var lines := Split(text, '\n');
    if lines[|lines| - 1] == "" then ParseLines(lines[..|lines| - 1], 1) else None
  }

  /** The same entries, with the records labelled by their number. */
  function Renumber(t: Table, n: nat): Table {
    if t == [] then []
    else if t[0].tag == Comment then [t[0]] + Renumber(t[1..], n)
    else [t[0].(tag := Line(n))] + Renumber(t[1..], n + 1)
  }

  lemma PrintStart(r: Record, l: Layout)
    requires WellFormed(r) && |l.gaps| == |r.extra| + 2
    ensures Print(r, l) != "" && !IsBlank(Print(r, l)[0]) && Print(r, l)[0] != '#'
  {
    hide Body, WordsOf, LineEnd;
  }

  lemma PrintOneLine(e: Entry)
    requires FitsEntry(e)
    ensures Free(PrintEntry(e), '\n')
  {
    if e.tag == Comment {
      assert "# "[0] == '#' && "# "[1] == ' ';
    } else {
      FromChildrenExact(e.children);
      var r := FromChildren(e.children).value;
      ParseOfPrint(r, DefaultLayout(r));
      hide FromChildren, Print, DefaultLayout, Words, Parse;
      ParsedOneLine(PrintEntry(e));
    }
  }

  lemma ParsedOneLine(line: string)
    requires Parse(line).Some?
    ensures '\n' !in line
  {
    hide Words;
  }

  lemma ParseOfEntry(e: Entry, n: nat)
    requires FitsEntry(e)
    ensures ParseLine(PrintEntry(e), n) == Row(if e.tag == Comment then e else e.(tag := Line(n)))
  {
    if e.tag == Comment {
      var line := PrintEntry(e);
      assert line[0] == '#' && line[1..] == " " + e.text;
      assert SkipBlanks(line) == line;
      SkipGap(" ", e.text);
      assert e.text + "" == e.text;
      DropGap(e.text, "");
    } else {
      FromChildrenExact(e.children);
      var r := FromChildren(e.children).value;
      ParseOfPrint(r, DefaultLayout(r));
      PrintStart(r, DefaultLayout(r));
      hide FromChildren, Print, DefaultLayout, Parse, Children;
    }
  }

  lemma {:induction false} LinesOfPrint(t: Table) returns (lines: seq<string>)
    requires FitsTable(t)
    ensures |lines| == |t| && Split(PrintTable(t), '\n') == lines + [""]
    ensures forall i :: 0 <= i < |t| ==> lines[i] == PrintEntry(t[i])
  {
    if t == [] {
      lines := [];
    } else {
      hide PrintEntry, FitsEntry, Split;
      var more := LinesOfPrint(t[1..]);
      lines := [PrintEntry(t[0])] + more;
      PrintOneLine(t[0]);
      SplitHead(PrintEntry(t[0]), PrintTable(t[1..]), '\n');
      assert lines + [""] == [PrintEntry(t[0])] + (more + [""]);
    }
  }

  function After(e: Entry, n: nat): nat {
    if e.tag == Comment then n else n + 1
  }

  /** The lines of a table are those of its first entry and of the others. */
  lemma LinesParts(t: Table, lines: seq<string>)
    requires FitsTable(t) && t != [] && |lines| == |t|
    requires forall i :: 0 <= i < |t| ==> lines[i] == PrintEntry(t[i])
    ensures FitsEntry(t[0]) && lines[0] == PrintEntry(t[0])
    ensures FitsTable(t[1..]) && |lines[1..]| == |t[1..]|
    ensures forall i :: 0 <= i < |t[1..]| ==> lines[1..][i] == PrintEntry(t[1..][i])
  {
    hide FitsEntry, PrintEntry;
    forall i | 0 <= i < |t[1..]| ensures lines[1..][i] == PrintEntry(t[1..][i]) {
      assert lines[1..][i] == lines[i + 1] && t[1..][i] == t[i + 1];
    }
  }

  lemma ParseOneMore(e: Entry, rest: Table, line: string, lines: seq<string>, n: nat)
    requires FitsEntry(e) && line == PrintEntry(e)
    requires ParseLines(lines, After(e, n)) == Some(Renumber(rest, After(e, n)))
    ensures ParseLines([line] + lines, n) == Some(Renumber([e] + rest, n))
  {
    hide PrintEntry, FitsEntry, ParseLine;
    ParseOfEntry(e, n);
    assert ([line] + lines)[0] == line && ([line] + lines)[1..] == lines;
    assert ([e] + rest)[0] == e && ([e] + rest)[1..] == rest;
  }

  lemma {:induction false} ParseOfLines(t: Table, lines: seq<string>, n: nat)
    requires FitsTable(t) && |lines| == |t|
    requires forall i :: 0 <= i < |t| ==> lines[i] == PrintEntry(t[i])
    ensures ParseLines(lines, n) == Some(Renumber(t, n))
  {
    if t != [] {
      hide PrintEntry, FitsTable, FitsEntry, ParseLines, Renumber, After;
      LinesParts(t, lines);
      ParseOfLines(t[1..], lines[1..], After(t[0], n));
      ParseOneMore(t[0], t[1..], lines[0], lines[1..], n);
      assert t == [t[0]] + t[1..] && lines == [lines[0]] + lines[1..];
    }
  }

  /** Saving a table that fits the lens and loading the text gives the same entries back. */
  lemma ReloadOfSave(t: Table)
    requires FitsTable(t)
    ensures ParseTable(PrintTable(t)) == Some(Renumber(t, 1))
  {
    hide PrintTable, FitsTable, ParseLines, Renumber, Split, PrintEntry;
    var lines := LinesOfPrint(t);
    ParseOfLines(t, lines, 1);
    assert (lines + [""])[..|lines|] == lines;
  }
}
