/** The types of attributes: how they are written, and how values of them are read. */
module AttrSpec {
  import opened Core
  import opened Text

  datatype DataType = StringType | BooleanType | ArrayType | EnumType(options: seq<string>)

  /* ---- printing types ---- */

  function Print(t: DataType): string {
    match t
    case StringType => "string"
    case BooleanType => "boolean"
    case ArrayType => "array[string]"
    case EnumType(options) => "enum[" + Join(options, ", ") + "]"
  }

  method PrintType(t: DataType) returns (text: string)
    ensures text == Print(t)
  {
    match t
    case StringType => text := "string";
    case BooleanType => text := "boolean";
    case ArrayType => text := "array[string]";
    case EnumType(options) =>
      var list := PrintJoined(options, ", ");
      text := "enum[" + list + "]";
  }

  /* ---- reading types ---- */

  function Strip(s: string): string {
    if s == "" then ""
    else if IsSpace(s[0]) then Strip(s[1..])
    else [s[0]] + Strip(s[1..])
  }

  function Find(s: string, c: char): (p: nat)
    ensures p <= |s| && c !in s[..p] && (p < |s| ==> s[p] == c)
  {
    if s == "" || s[0] == c then 0 else 1 + Find(s[1..], c)
  }

  predicate IsOptionChar(c: char) {
    'a' <= c <= 'z' || '0' <= c <= '9'
  }

  predicate IsOption(o: string) {
    o != "" && forall i :: 0 <= i < |o| ==> IsOptionChar(o[i])
  }

  predicate AllOptions(options: seq<string>) {
    forall i :: 0 <= i < |options| ==> IsOption(options[i])
  }

  function TrimAll(parts: seq<string>): seq<string> {
    seq(|parts|, i requires 0 <= i < |parts| => Trim(parts[i]))
  }

  /** What stands between the first '[' and the next ']', if there is anything. */
  function OptionText(ts: string): Option<string> {
    var start := Find(ts, '[');
    if start + 1 >= |ts| then None
    else
      var rest := ts[start + 1..];
      var end := Find(rest, ']');
      if end == |rest| then None else Some(rest[..end])
  }

  function CreateSpec(text: string): Option<DataType> {
    var ts := Strip(text);
    if ts == "boolean" then Some(BooleanType)
    else if ts == "string" then Some(StringType)
    else if ts == "array[string]" then Some(ArrayType)
    else if "enum" <= ts then
      match OptionText(ts)
      case None => None
      case Some(inner) =>
        var options := TrimAll(Split(inner, ','));
        if AllOptions(options) then Some(EnumType(options)) else None
    else None
  }

  method Create(text: string) returns (t: Option<DataType>)
    ensures t == CreateSpec(text)
  {
    hide Split, Trim, Find;
    var ts := Strip(text);
    if ts == "boolean" {
      return Some(BooleanType);
    } else if ts == "string" {
      return Some(StringType);
    } else if ts == "array[string]" {
      return Some(ArrayType);
    } else if "enum" <= ts {
      var inner := OptionText(ts);
      if inner.None? {
        return None;
      }
      var options := Split(inner.value, ',');
      for i := 0 to |options|
        invariant options == TrimAll(Split(inner.value, ','))[..i] + Split(inner.value, ',')[i..]
        invariant forall j :: 0 <= j < i ==> IsOption(options[j])
      {
        assert Trim(options[i]) == TrimAll(Split(inner.value, ','))[i];
        options := options[i := Trim(options[i])];
        if options[i] == "" {
          return None;
        }
        for p := 0 to |options[i]|
          invariant forall j :: 0 <= j < p ==> IsOptionChar(options[i][j])
        {
          if !IsOptionChar(options[i][p]) {
            assert !IsOption(options[i]);
            return None;
          }
        }
      }
      assert options == TrimAll(Split(inner.value, ','));
      return Some(EnumType(options));
    } else {
      return None;
    }
  }

  /* ---- whitespace ---- */

  lemma {:induction false} StripAppend(a: string, b: string)
    ensures Strip(a + b) == Strip(a) + Strip(b)
  {
    if a == "" {
      assert a + b == b;
    } else {
      assert (a + b)[0] == a[0] && (a + b)[1..] == a[1..] + b;
      StripAppend(a[1..], b);
    }
  }

  lemma {:induction false} StripBlank(s: string)
    requires Blank(s)
    ensures Strip(s) == ""
  {
    if s != "" {
      assert s[0] in s;
      StripBlank(s[1..]);
    }
  }

  /** Whitespace makes no difference, wherever it stands. */
  lemma WhitespaceIgnored(a: string, pad: string, b: string)
    requires Blank(pad)
    ensures CreateSpec(a + pad + b) == CreateSpec(a + b)
  {
    StripAppend(a + pad, b);
    StripAppend(a, pad);
    StripAppend(a, b);
    StripBlank(pad);
    hide Strip, OptionText, TrimAll, Split;
    assert Strip(a) + "" == Strip(a);
  }

  predicate SpaceFree(s: string) {
    forall i :: 0 <= i < |s| ==> !IsSpace(s[i])
  }

  lemma {:induction false} StripSpaceFree(s: string)
    requires SpaceFree(s)
    ensures Strip(s) == s
  {
    if s != "" {
      StripSpaceFree(s[1..]);
    }
  }

  lemma {:induction false} StripIsSpaceFree(s: string)
    ensures SpaceFree(Strip(s))
  {
    if s != "" {
      StripIsSpaceFree(s[1..]);
    }
  }

  /* ---- which types are accepted ---- */

  predicate ValidType(t: DataType) {
    t.EnumType? ==> t.options != [] && AllOptions(t.options)
  }

  lemma OptionFacts(o: string)
    requires IsOption(o)
    ensures ',' !in o && ']' !in o && SpaceFree(o) && Trim(o) == o
  {
    assert forall i :: 0 <= i < |o| ==> IsOptionChar(o[i]);
    assert TrimLeft(o) == o && TrimRight(o) == o;
  }

  lemma {:induction false} JoinFacts(options: seq<string>)
    requires AllOptions(options)
    ensures ']' !in Join(options, ",") && SpaceFree(Join(options, ","))
    ensures Strip(Join(options, ", ")) == Join(options, ",")
  {
    if |options| == 1 {
      OptionFacts(options[0]);
      StripSpaceFree(options[0]);
    } else if |options| > 1 {
      var rest := options[1..];
      JoinFacts(rest);
      OptionFacts(options[0]);
      StripSpaceFree(options[0]);
      StripAppend(options[0] + ", ", Join(rest, ", "));
      StripAppend(options[0], ", ");
      assert Strip(", ") == "," by { assert ", "[1..] == " " && Blank(" "); StripBlank(" "); }
    }
  }

  /** The option text of "enum" followed by anything without '[', options in brackets, and anything. */
  lemma OptionTextOf(pre: string, inner: string, post: string)
    requires '[' !in pre && ']' !in inner
    ensures OptionText(pre + "[" + inner + "]" + post) == Some(inner)
  {
    var ts := pre + "[" + inner + "]" + post;
    FindAfter(pre, "[" + inner + "]" + post, '[');
    assert ts == pre + ("[" + inner + "]" + post);
    var rest := inner + "]" + post;
    assert ts[|pre| + 1..] == rest;
    FindAfter(inner, "]" + post, ']');
    assert rest == inner + ("]" + post);
  }

  lemma {:induction false} FindAfter(a: string, b: string, c: char)
    requires c !in a && b != "" && b[0] == c
    ensures Find(a + b, c) == |a|
  {
    if a == "" {
      assert a + b == b;
    } else {
      assert a[0] in a && (a + b)[1..] == a[1..] + b;
      FindAfter(a[1..], b, c);
    }
  }

  lemma TrimAllOptions(options: seq<string>)
    requires AllOptions(options)
    ensures TrimAll(options) == options && AllFree(options, ',')
  {
    forall i | 0 <= i < |options| ensures Trim(options[i]) == options[i] && Free(options[i], ',') {
      OptionFacts(options[i]);
    }
  }

  lemma OptionsOfJoin(options: seq<string>)
    requires options != [] && AllOptions(options)
    ensures TrimAll(Split(Join(options, ","), ',')) == options && ']' !in Join(options, ",")
  {
    JoinFacts(options);
    TrimAllOptions(options);
    SplitOfJoin(options, ',');
  }

  lemma EnumIsNoOther(rest: string)
    ensures var ts := "enum" + rest;
            "enum" <= ts && ts != "boolean" && ts != "string" && ts != "array[string]"
  {
    var ts := "enum" + rest;
    assert ts[0] == 'e' && "boolean"[0] == 'b' && "string"[0] == 's' && "array[string]"[0] == 'a';
  }

  lemma EnumAccepted(pre: string, options: seq<string>, post: string, text: string)
    requires options != [] && AllOptions(options) && '[' !in pre
    requires Strip(text) == "enum" + pre + "[" + Join(options, ",") + "]" + post
    ensures CreateSpec(text) == Some(EnumType(options))
  {
    hide Strip, OptionText, TrimAll, Split, Join, AllOptions;
    var inner := Join(options, ",");
    OptionsOfJoin(options);
    OptionTextOf("enum" + pre, inner, post);
    EnumIsNoOther(pre + "[" + inner + "]" + post);
    assert Strip(text) == "enum" + (pre + "[" + inner + "]" + post);
  }

  lemma SplitAround(s: string, i: nat)
    requires i < |s|
    ensures s == s[..i] + [s[i]] + s[i + 1..]
  {
  }

  /** A text between the first '[' and the next ']', and what stands around it. */
  lemma OptionTextAround(ts: string) returns (pre: string, post: string)
    requires "enum" <= ts && OptionText(ts).Some?
    ensures '[' !in pre && ts == "enum" + pre + "[" + OptionText(ts).value + "]" + post
  {
    var start := Find(ts, '[');
    var rest := ts[start + 1..];
    var end := Find(rest, ']');
    hide Find;
    SplitAround(ts, start);
    SplitAround(rest, end);
    assert start >= 4 by { assert ts[0] == 'e' && ts[1] == 'n' && ts[2] == 'u' && ts[3] == 'm'; }
    pre, post := ts[4..start], rest[end + 1..];
    assert ts[..start] == "enum" + pre;
  }

  lemma PartSpaceFree(a: string, b: string, c: string)
    requires SpaceFree(a + b + c)
    ensures SpaceFree(b)
  {
    assert forall i :: 0 <= i < |b| ==> b[i] == (a + b + c)[|a| + i];
  }

  /** How an accepted enum was written. */
  lemma EnumWritten(text: string) returns (pre: string, post: string)
    requires CreateSpec(text).Some? && CreateSpec(text).value.EnumType?
    ensures var options := CreateSpec(text).value.options;
            && options != [] && AllOptions(options) && '[' !in pre
            && Strip(text) == "enum" + pre + "[" + Join(options, ",") + "]" + post
  {
    hide Strip, Split, Join, TrimAll, OptionText, AllOptions, SpaceFree;
    var ts := Strip(text);
    pre, post := OptionTextAround(ts);
    var inner := OptionText(ts).value;
    StripIsSpaceFree(text);
    assert ts == "enum" + pre + "[" + inner + ("]" + post);
    PartSpaceFree("enum" + pre + "[", inner, "]" + post);
    PiecesTrimmed(inner);
    JoinOfSplit(inner, ',');
  }

  /** Pieces of a text without whitespace are left alone by trimming. */
  lemma {:induction false} PiecesTrimmed(s: string)
    requires SpaceFree(s)
    ensures TrimAll(Split(s, ',')) == Split(s, ',')
    ensures forall i :: 0 <= i < |Split(s, ',')| ==> SpaceFree(Split(s, ',')[i])
  {
    PiecesSpaceFree(s);
    hide Split;
    var parts := Split(s, ',');
    forall i | 0 <= i < |parts| ensures Trim(parts[i]) == parts[i] {
      SpaceFreeTrim(parts[i]);
    }
  }

  lemma SpaceFreeTrim(s: string)
    requires SpaceFree(s)
    ensures Trim(s) == s
  {
  }

  lemma {:induction false} PiecesSpaceFree(s: string)
    requires SpaceFree(s)
    ensures forall i :: 0 <= i < |Split(s, ',')| ==> SpaceFree(Split(s, ',')[i])
  {
    if s != "" {
      PiecesSpaceFree(s[1..]);
    }
  }

  /** The characters of an option: lower case letters and digits of ASCII. */
  predicate LowerOrDigit(c: char) {
    97 <= c as int <= 122 || 48 <= c as int <= 57
  }

  lemma OptionsAre(options: seq<string>)
    ensures AllOptions(options) <==> forall o :: o in options ==> o != "" && forall c :: c in o ==> LowerOrDigit(c)
  {
    hide IsOption, LowerOrDigit;
    forall i | 0 <= i < |options|
      ensures IsOption(options[i]) <==> options[i] != "" && forall c :: c in options[i] ==> LowerOrDigit(c)
    {
      OptionIs(options[i]);
    }
    assert forall i :: 0 <= i < |options| ==> options[i] in options;
  }

  lemma OptionIs(o: string)
    ensures IsOption(o) <==> o != "" && forall c :: c in o ==> LowerOrDigit(c)
  {
    hide IsOptionChar, LowerOrDigit;
    forall i | 0 <= i < |o| ensures IsOptionChar(o[i]) <==> LowerOrDigit(o[i]) {
      OptionCharIs(o[i]);
    }
    assert forall i :: 0 <= i < |o| ==> o[i] in o;
  }

  lemma OptionCharIs(c: char)
    ensures IsOptionChar(c) <==> LowerOrDigit(c)
  {
  }

  /** The three types without options are accepted under just these names. */
  lemma KeywordsAcceptedIff(text: string)
    ensures CreateSpec(text) == Some(BooleanType) <==> Strip(text) == "boolean"
    ensures CreateSpec(text) == Some(StringType) <==> Strip(text) == "string"
    ensures CreateSpec(text) == Some(ArrayType) <==> Strip(text) == "array[string]"
  {
    hide Strip, OptionText, Split, TrimAll, AllOptions;
  }

  /**
   * An enum is accepted exactly if, without whitespace, it is "enum", anything but '[', a
   * bracketed list of one or more options, and anything.
   */
  lemma EnumAcceptedIff(text: string, options: seq<string>)
    ensures CreateSpec(text) == Some(EnumType(options)) <==>
              && options != [] && (forall o :: o in options ==> o != "" && forall c :: c in o ==> LowerOrDigit(c))
              && exists pre, post :: '[' !in pre && Strip(text) == "enum" + pre + "[" + Join(options, ",") + "]" + post
  {
    OptionsAre(options);
    hide Strip, Join, AllOptions, CreateSpec, LowerOrDigit;
    if CreateSpec(text) == Some(EnumType(options)) {
      var pre, post := EnumWritten(text);
    }
    if options != [] && AllOptions(options)
       && exists pre, post :: '[' !in pre && Strip(text) == "enum" + pre + "[" + Join(options, ",") + "]" + post {
      var pre, post :| '[' !in pre && Strip(text) == "enum" + pre + "[" + Join(options, ",") + "]" + post;
      EnumAccepted(pre, options, post, text);
    }
  }

  /** Every accepted type is valid, and printing it gives a text that is read as the same type. */
  lemma TypeRoundTrip(text: string)
    requires CreateSpec(text).Some?
    ensures ValidType(CreateSpec(text).value)
    ensures CreateSpec(Print(CreateSpec(text).value)) == CreateSpec(text)
  {
    if CreateSpec(text).value.EnumType? {
      var pre, post := EnumWritten(text);
    }
    hide CreateSpec;
    PrintedIsRead(CreateSpec(text).value);
  }

  lemma PrintedIsRead(t: DataType)
    requires ValidType(t)
    ensures CreateSpec(Print(t)) == Some(t)
  {
    match t
    case StringType => StripSpaceFree("string");
    case BooleanType => StripSpaceFree("boolean");
    case ArrayType => StripSpaceFree("array[string]");
    case EnumType(options) =>
      PrintedEnumStripped(options);
      hide Strip, Join, AllOptions, CreateSpec;
      EnumAccepted("", options, "", Print(t));
  }

  lemma PrintedEnumStripped(options: seq<string>)
    requires AllOptions(options)
    ensures Strip("enum[" + Join(options, ", ") + "]") == "enum" + "" + "[" + Join(options, ",") + "]" + ""
  {
    JoinFacts(options);
    StripSpaceFree("enum[");
    StripSpaceFree("]");
    hide Strip, Join;
    StripAppend("enum[" + Join(options, ", "), "]");
    StripAppend("enum[", Join(options, ", "));
    assert "enum" + "" + "[" == "enum[";
  }

  /* ---- reading values ---- */

  function LowerChar(c: char): char {
    if 'A' <= c <= 'Z' then (c as int + 32) as char else c
  }

  function Lower(s: string): string {
    seq(|s|, i requires 0 <= i < |s| => LowerChar(s[i]))
  }

  predicate NoBlank(parts: seq<string>) {
    forall i :: 0 <= i < |parts| ==> parts[i] != ""
  }

  function ReadArraySpec(s: string): Option<seq<string>> {
    if s == "" then Some([])
    else
      var parts := TrimAll(Split(s, ','));
      if NoBlank(parts) then Some(parts) else None
  }

  method ReadArray(s: string) returns (r: Option<seq<string>>)
    ensures r == ReadArraySpec(s)
  {
    hide Split, Trim;
    var ary: seq<string> := [];
    if s != "" {
      ary := Split(s, ',');
      for i := 0 to |ary|
        invariant ary == TrimAll(Split(s, ','))[..i] + Split(s, ',')[i..]
        invariant forall j :: 0 <= j < i ==> ary[j] != ""
      {
        assert Trim(ary[i]) == TrimAll(Split(s, ','))[i];
        ary := ary[i := Trim(ary[i])];
        if ary[i] == "" {
          return None;
        }
      }
      assert ary == TrimAll(Split(s, ','));
    }
    return Some(ary);
  }

  function ReadString(t: DataType, s: string): Option<Value> {
    match t
    case StringType => Some(Str(s))
    case BooleanType =>
      if Lower(s) == "true" then Some(Bool(true)) else if Lower(s) == "false" then Some(Bool(false)) else None
    case ArrayType =>
      (match ReadArraySpec(s)
       case None => None
       case Some(a) => Some(Array(a)))
    case EnumType(options) => if s in options then Some(Str(s)) else None
  }

  /** Reading inverts joining with commas, also if the pieces have blanks around them. */
  lemma ReadArrayOfJoin(pieces: seq<string>, parts: seq<string>)
    requires |pieces| == |parts| && AllFree(pieces, ',')
    requires forall i :: 0 <= i < |parts| ==> Trim(pieces[i]) == parts[i] && parts[i] != ""
    ensures ReadArraySpec(Join(pieces, ",")) == Some(parts)
  {
    if pieces != [] {
      SplitOfJoin(pieces, ',');
      assert pieces[0] != "";
      assert Join(pieces, ",") != "";
      hide Split, Join, Trim;
      assert TrimAll(pieces) == parts;
    }
  }

  predicate HasBlank(parts: seq<string>) {
    exists i :: 0 <= i < |parts| && Blank(parts[i])
  }

  /** What is rejected is exactly a text that is not empty and has a blank piece. */
  lemma ReadArrayRejectsIff(s: string)
    ensures ReadArraySpec(s) == None <==> s != "" && HasBlank(Split(s, ','))
  {
    BlankPieces(Split(s, ','));
  }

  lemma BlankPieces(parts: seq<string>)
    ensures NoBlank(TrimAll(parts)) <==> !HasBlank(parts)
  {
    hide Trim, Blank;
    forall i | 0 <= i < |parts| ensures TrimAll(parts)[i] == "" <==> Blank(parts[i]) {
      TrimFacts(parts[i]);
    }
  }

  /** A value of this type, as `read_string` or a provider may produce it. */
  predicate OfType(v: Value, t: DataType) {
    match t
    case StringType => v.Str?
    case BooleanType => v.Bool?
    case ArrayType => v.Array?
    case EnumType(options) => v.Str? && v.s in options
  }

  /** The first piece of a printed array holds more than the first element. */
  lemma PrintedArrayDiffers(a: seq<string>)
    ensures ReadArraySpec(Array(a).ToString()) != Some(a)
  {
    if a == [] {
      SplitPiece("[]", ',');
      assert TrimAll(["[]"])[0] == "[]";
    } else {
      var text := Array(a).ToString();
      var tail := QuotedTail(a);
      if ReadArraySpec(text) == Some(a) {
        var first := Split(text, ',')[0];
        assert Trim(first) == a[0];
        JoinOfSplit(text, ',');
        TrimFree(first, ',');
        FirstPiece(a[0], tail, text);
        assert false;
      }
    }
  }

  /** What follows the first element in the text of an array. */
  lemma QuotedTail(a: seq<string>) returns (tail: string)
    requires a != []
    ensures Array(a).ToString() == "['" + a[0] + "'" + tail && (tail == "]" || (tail != "" && tail[0] == ','))
  {
    tail := QuotedListTail(a);
    assert "[" + ("'" + a[0] + "'" + tail) + "]" == "['" + a[0] + "'" + (tail + "]");
    tail := tail + "]";
  }

  lemma {:induction false} QuotedListTail(a: seq<string>) returns (tail: string)
    requires a != []
    ensures QuotedList(a) == "'" + a[0] + "'" + tail && (tail == "" || tail[0] == ',')
  {
    if |a| == 1 {
      tail := "";
    } else {
      var before := QuotedListTail(a[..|a| - 1]);
      tail := before + (", '" + a[|a| - 1] + "'");
      assert QuotedList(a) == ("'" + a[0] + "'" + before) + (", '" + a[|a| - 1] + "'");
    }
  }

  lemma TrimFree(s: string, c: char)
    requires Free(s, c)
    ensures Free(Trim(s), c)
  {
    TrimFacts(s);
  }

  lemma FirstPiece(a0: string, tail: string, text: string)
    requires Free(a0, ',') && text == "['" + a0 + "'" + tail && (tail == "]" || (tail != "" && tail[0] == ','))
    ensures Trim(Split(text, ',')[0]) != a0
  {
    var piece := if tail == "]" then "['" + a0 + "']" else "['" + a0 + "'";
    assert Free("['" + a0 + "'", ',');
    if tail == "]" {
      assert text == piece;
      SplitPiece(piece, ',');
    } else {
      assert text == piece + [','] + tail[1..];
      SplitHead(piece, tail[1..], ',');
    }
    hide Split;
    assert Trimmed(piece);
    assert "" + piece + "" == piece;
    TrimAround("", piece, "");
  }

  /**
   * The text that is printed for a value is read back as that value exactly if its type is not
   * an array: arrays are printed with brackets and quotes that reading does not understand.
   */
  lemma TextRoundTripIff(t: DataType, v: Value)
    requires OfType(v, t)
    ensures ReadString(t, v.ToString()) == Some(v) <==> !t.ArrayType?
  {
    match t
    case StringType =>
    case BooleanType =>
      assert Lower("true") == "true" && Lower("false") == "false";
      assert "true"[0] != "false"[0];
    case ArrayType => PrintedArrayDiffers(v.a);
    case EnumType(options) =>
  }

  /** Booleans are read in any case, and nothing else is a boolean. */
  lemma BooleansRead(s: string)
    ensures ReadString(BooleanType, s) ==
              if |s| == 4 && s[0] in "tT" && s[1] in "rR" && s[2] in "uU" && s[3] in "eE" then Some(Bool(true))
              else if |s| == 5 && s[0] in "fF" && s[1] in "aA" && s[2] in "lL" && s[3] in "sS" && s[4] in "eE"
              then Some(Bool(false))
              else None
  {
    var t := Lower(s);
    assert |t| == |s| && forall i :: 0 <= i < |s| ==> t[i] == LowerChar(s[i]);
    hide Lower;
    assert t == "true" <==> |t| == 4 && t[0] == 't' && t[1] == 'r' && t[2] == 'u' && t[3] == 'e';
    assert t == "false" <==>
             |t| == 5 && t[0] == 'f' && t[1] == 'a' && t[2] == 'l' && t[3] == 's' && t[4] == 'e';
  }
}
