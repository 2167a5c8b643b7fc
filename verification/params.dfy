/** `formatParams`, the helper both encoder supervisors use to turn a
    multi-line argument template into the argument list of the encoder
    process: trim the text, delete its line breaks, replace what the
    pattern `/\\S+/g` matches with a space, split at single spaces, drop
    empty pieces and trim each piece. The pattern matches a backslash
    followed by one or more letters `S`, not runs of whitespace. */
module Params {

  /** The characters String.prototype.trim removes and the regular
      expression class `\s` matches: the ECMAScript WhiteSpace and
      LineTerminator code points. */
  const JsSpaces: set<char> := {
    ' ', '\t', '\n', '\r', '\U{000B}', '\U{000C}', '\U{00A0}', '\U{FEFF}', '\U{1680}',
    '\U{2000}', '\U{2001}', '\U{2002}', '\U{2003}', '\U{2004}', '\U{2005}', '\U{2006}',
    '\U{2007}', '\U{2008}', '\U{2009}', '\U{200A}',
    '\U{2028}', '\U{2029}', '\U{202F}', '\U{205F}', '\U{3000}'}

  predicate IsJsSpace(c: char)
  {
    c in JsSpaces
  }

  /** No character of s is c. */
  predicate Avoids(s: string, c: char)
  {
    forall i :: 0 <= i < |s| ==> s[i] != c
  }

  /** s holds no whitespace at all. */
  predicate Solid(s: string)
  {
    forall i :: 0 <= i < |s| ==> !IsJsSpace(s[i])
  }

  predicate NoSpaceAtEnds(s: string)
  {
    s == [] || (!IsJsSpace(s[0]) && !IsJsSpace(s[|s| - 1]))
  }

  function TrimStart(s: string): (r: string)
    ensures |r| <= |s| && r == s[|s| - |r|..]
    ensures r == [] || !IsJsSpace(r[0])
    decreases |s|
  {
    if s != [] && IsJsSpace(s[0]) then TrimStart(s[1..]) else s
  }

  function TrimEnd(s: string): (r: string)
    ensures |r| <= |s| && r == s[..|r|]
    ensures r == [] || !IsJsSpace(r[|r| - 1])
    decreases |s|
  {
    if s != [] && IsJsSpace(s[|s| - 1]) then TrimEnd(s[..|s| - 1]) else s
  }

  /** String.prototype.trim: no whitespace is left at either end. */
  function Trim(s: string): (r: string)
    ensures NoSpaceAtEnds(r)
  {
    var t := TrimStart(s);
    var r := TrimEnd(t);
    assert r != [] ==> r[0] == t[0];
    r
  }

  /** Trimming adds no character. */
  lemma TrimAvoids(s: string, c: char)
    requires Avoids(s, c)
    ensures Avoids(Trim(s), c)
  {
    var t := TrimStart(s);
    assert forall i :: 0 <= i < |t| ==> t[i] == s[|s| - |t| + i];
  }

  /** Trimming text without whitespace leaves it as it is. */
  lemma TrimSolid(s: string)
    requires Solid(s)
    ensures Trim(s) == s
  {
  }

  /** `replace(/\r?\n|\r/g, '')`: every carriage return and line feed is
      deleted. */
  function DropLineBreaks(s: string): (r: string)
    ensures Avoids(r, '\n') && Avoids(r, '\r')
    decreases |s|
  {
    if s == [] then []
    else if s[0] == '\n' || s[0] == '\r' then DropLineBreaks(s[1..])
    else [s[0]] + DropLineBreaks(s[1..])
  }

  /** The letters `S` at the start of s. */
  function LeadingS(s: string): (n: nat)
    ensures n <= |s| && forall i :: 0 <= i < n ==> s[i] == 'S'
    ensures n < |s| ==> s[n] != 'S'
    decreases |s|
  {
    if s != [] && s[0] == 'S' then 1 + LeadingS(s[1..]) else 0
  }

  /** `replace(/\\S+/g, ' ')`: each backslash followed by one or more
      letters `S` (as many as there are) becomes one space. */
  function ReplaceBackslashS(s: string): (r: string)
    decreases |s|
  {
    if s == [] then []
    else if s[0] == '\\' && LeadingS(s[1..]) > 0 then [' '] + ReplaceBackslashS(s[1 + LeadingS(s[1..])..])
    else [s[0]] + ReplaceBackslashS(s[1..])
  }

  /** The replacement brings in spaces and nothing else. */
  lemma {:induction false} ReplaceAvoids(s: string, c: char)
    requires c != ' ' && Avoids(s, c)
    ensures Avoids(ReplaceBackslashS(s), c)
    decreases |s|
  {
    if s != [] {
      if s[0] == '\\' && LeadingS(s[1..]) > 0 {
        var n := 1 + LeadingS(s[1..]);
        assert forall i :: 0 <= i < |s[n..]| ==> s[n..][i] == s[n + i];
        ReplaceAvoids(s[n..], c);
      } else {
        assert forall i :: 0 <= i < |s[1..]| ==> s[1..][i] == s[1 + i];
        ReplaceAvoids(s[1..], c);
      }
    }
  }

  /** `split(sep)` with a one-character separator: the pieces between
      separators, empty ones included; there is always at least one. */
  function Split(s: string, sep: char): (r: seq<string>)
    ensures |r| >= 1
    decreases |s|
  {
    if s == [] then [[]]
    else if s[0] == sep then [[]] + Split(s[1..], sep)
    else
      var rest := Split(s[1..], sep);
      [[s[0]] + rest[0]] + rest[1..]
  }

  /** No piece of a split holds the separator, nor any character the text
      split avoids. */
  lemma {:induction false} SplitAvoids(s: string, sep: char, c: char)
    requires c == sep || Avoids(s, c)
    ensures forall k :: 0 <= k < |Split(s, sep)| ==> Avoids(Split(s, sep)[k], c)
    decreases |s|
  {
    if s != [] {
      assert forall i :: 0 <= i < |s[1..]| ==> s[1..][i] == s[1 + i];
      SplitAvoids(s[1..], sep, c);
      var rest := Split(s[1..], sep);
      if s[0] != sep {
        var first := [s[0]] + rest[0];
        assert forall i :: 1 <= i < |first| ==> first[i] == rest[0][i - 1];
        assert Avoids(first, c);
        assert Split(s, sep) == [first] + rest[1..];
      } else {
        assert Split(s, sep) == [[]] + rest;
      }
    }
  }

  /** Splitting at spaces text whose only whitespace is spaces gives
      pieces without whitespace. */
  lemma {:induction false} SplitSolid(s: string)
    requires forall i :: 0 <= i < |s| ==> s[i] == ' ' || !IsJsSpace(s[i])
    ensures forall k :: 0 <= k < |Split(s, ' ')| ==> Solid(Split(s, ' ')[k])
    decreases |s|
  {
    if s != [] {
      assert forall i :: 0 <= i < |s[1..]| ==> s[1..][i] == s[1 + i];
      SplitSolid(s[1..]);
      var rest := Split(s[1..], ' ');
      if s[0] != ' ' {
        var first := [s[0]] + rest[0];
        assert forall i :: 1 <= i < |first| ==> first[i] == rest[0][i - 1];
        assert Solid(first);
        assert Split(s, ' ') == [first] + rest[1..];
      } else {
        assert Split(s, ' ') == [[]] + rest;
      }
    }
  }

  /** `filter(e => e !== '' && e.length > 0)`. */
  function NonEmpty(ts: seq<string>): (r: seq<string>)
    ensures forall k :: 0 <= k < |r| ==> r[k] != [] && r[k] in ts
    decreases |ts|
  {
    if ts == [] then []
    else if ts[0] == [] then NonEmpty(ts[1..])
    else [ts[0]] + NonEmpty(ts[1..])
  }

  /** `map(val => val.trim())`. */
  function TrimAll(ts: seq<string>): (r: seq<string>)
    ensures |r| == |ts|
    ensures forall k :: 0 <= k < |r| ==> r[k] == Trim(ts[k])
    decreases |ts|
  {
    if ts == [] then [] else [Trim(ts[0])] + TrimAll(ts[1..])
  }

  /** `formatParams(str)` as written. */
  function FormatParams(str: string): seq<string>
  {
    TrimAll(NonEmpty(Split(ReplaceBackslashS(DropLineBreaks(Trim(str))), ' ')))
  }

  /** Every argument `formatParams` returns has no space, carriage return or
      line feed in it and no whitespace at either end; it can still be
      empty (see `EmptyArgument`). */
  lemma ParamsAsWritten(str: string)
    ensures forall k :: 0 <= k < |FormatParams(str)| ==> NoSpaceAtEnds(FormatParams(str)[k])
    ensures forall k :: 0 <= k < |FormatParams(str)| ==>
              Avoids(FormatParams(str)[k], ' ') && Avoids(FormatParams(str)[k], '\n') && Avoids(FormatParams(str)[k], '\r')
  {
    var a := DropLineBreaks(Trim(str));
    var b := ReplaceBackslashS(a);
    ReplaceAvoids(a, '\n');
    ReplaceAvoids(a, '\r');
    var pieces := Split(b, ' ');
    SplitAvoids(b, ' ', ' ');
    SplitAvoids(b, ' ', '\n');
    SplitAvoids(b, ' ', '\r');
    var kept := NonEmpty(pieces);
    var r := FormatParams(str);
    forall k | 0 <= k < |r|
      ensures Avoids(r[k], ' ') && Avoids(r[k], '\n') && Avoids(r[k], '\r')
    {
      assert kept[k] in pieces;
      TrimAvoids(kept[k], ' ');
      TrimAvoids(kept[k], '\n');
      TrimAvoids(kept[k], '\r');
    }
  }

  /** The text of `EmptyArgument` goes through trimming, line-break
      deletion and the replacement unchanged. */
  lemma TabTextKept()
    ensures Trim("a \t b") == "a \t b"
    ensures DropLineBreaks("a \t b") == "a \t b"
    ensures ReplaceBackslashS("a \t b") == "a \t b"
  {
    var s := "a \t b";
    assert !IsJsSpace('a') && !IsJsSpace('b');
    assert TrimStart(s) == s;
    assert TrimEnd(s) == s;
    assert s[1..] == " \t b" && s[2..] == "\t b" && s[3..] == " b" && s[4..] == "b";
    assert DropLineBreaks("b") == "b";
    assert DropLineBreaks(" b") == " b";
    assert DropLineBreaks("\t b") == "\t b";
    assert DropLineBreaks(" \t b") == " \t b";
    assert ReplaceBackslashS("b") == "b";
    assert ReplaceBackslashS(" b") == " b";
    assert ReplaceBackslashS("\t b") == "\t b";
    assert ReplaceBackslashS(" \t b") == " \t b";
  }

  lemma SplitStep(c: char, t: string, sep: char)
    ensures c == sep ==> Split([c] + t, sep) == [[]] + Split(t, sep)
    ensures c != sep ==> Split([c] + t, sep) == [[c] + Split(t, sep)[0]] + Split(t, sep)[1..]
  {
    assert ([c] + t)[0] == c && ([c] + t)[1..] == t;
  }

  /** Splitting the text of `EmptyArgument` at spaces. */
  lemma TabTextSplit()
    ensures Split("a \t b", ' ') == ["a", "\t", "b"]
  {
    var e: string := [];
    assert Split(e, ' ') == [e];
    SplitStep('b', e, ' ');
    assert ['b'] + e == "b";
    assert Split("b", ' ') == ["b"];
    SplitStep(' ', "b", ' ');
    assert [' '] + "b" == " b";
    assert Split(" b", ' ') == ["", "b"];
    SplitStep('\t', " b", ' ');
    assert ['\t'] + " b" == "\t b" && ['\t'] + "" == "\t";
    assert Split("\t b", ' ') == ["\t", "b"];
    SplitStep(' ', "\t b", ' ');
    assert [' '] + "\t b" == " \t b";
    assert Split(" \t b", ' ') == ["", "\t", "b"];
    SplitStep('a', " \t b", ' ');
    assert ['a'] + " \t b" == "a \t b" && ['a'] + "" == "a";
  }

  lemma TrimSingle(c: char)
    ensures IsJsSpace(c) ==> Trim([c]) == []
    ensures !IsJsSpace(c) ==> Trim([c]) == [c]
  {
    assert [c][1..] == [] && [c][..0] == [];
  }

  /** The three pieces of `EmptyArgument` trimmed one by one. */
  lemma TabPieceEach()
    ensures Trim("a") == "a" && Trim("\t") == "" && Trim("b") == "b"
  {
    assert !IsJsSpace('a') && !IsJsSpace('b') && IsJsSpace('\t');
    TrimSingle('a');
    TrimSingle('\t');
    TrimSingle('b');
  }

  lemma TabPiecesKept()
    ensures NonEmpty(["a", "\t", "b"]) == ["a", "\t", "b"]
  {
    var pieces := ["a", "\t", "b"];
    var e: seq<string> := [];
    assert ["b"][1..] == e;
    assert NonEmpty(["b"]) == ["b"];
    assert ["\t", "b"][1..] == ["b"];
    assert NonEmpty(["\t", "b"]) == ["\t", "b"];
    assert pieces[1..] == ["\t", "b"];
  }

  /** The pieces of `EmptyArgument` are all kept and become "a", "" and
      "b" once trimmed. */
  lemma TabPiecesTrimmed()
    ensures TrimAll(NonEmpty(["a", "\t", "b"])) == ["a", "", "b"]
  {
    TabPiecesKept();
    TabPieceEach();
    var r := TrimAll(["a", "\t", "b"]);
    assert r[0] == "a" && r[1] == "" && r[2] == "b";
  }

  /** A tab standing alone between spaces becomes an empty argument. */
  lemma EmptyArgument()
    ensures FormatParams("a \t b") == ["a", "", "b"]
  {
    TabTextKept();
    TabTextSplit();
    TabPiecesTrimmed();
  }

  // ---------------------------------------------------------------------
  // The evidently intended tokenizer

  /** `replace(/\s+/g, ' ')`: each run of whitespace becomes one space. */
  function CollapseSpace(s: string): (r: string)
    ensures forall i :: 0 <= i < |r| ==> r[i] == ' ' || !IsJsSpace(r[i])
    decreases |s|
  {
    if s == [] then []
    else if IsJsSpace(s[0]) then [' '] + CollapseSpace(TrimStart(s))
    else [s[0]] + CollapseSpace(s[1..])
  }

  /** `formatParams` with the whitespace pattern it evidently meant,
      `/\s+/g`, in place of `/\\S+/g`. */
  function FormatParamsFixed(str: string): seq<string>
  {
    TrimAll(NonEmpty(Split(CollapseSpace(DropLineBreaks(Trim(str))), ' ')))
  }

  /** With the intended pattern every argument is non-empty and holds no
      whitespace at all. */
  lemma ParamsFixed(str: string)
    ensures forall k :: 0 <= k < |FormatParamsFixed(str)| ==>
              FormatParamsFixed(str)[k] != [] && Solid(FormatParamsFixed(str)[k])
  {
    var b := CollapseSpace(DropLineBreaks(Trim(str)));
    var pieces := Split(b, ' ');
    SplitSolid(b);
    var kept := NonEmpty(pieces);
    var r := FormatParamsFixed(str);
    forall k | 0 <= k < |r|
      ensures r[k] != [] && Solid(r[k])
    {
      assert kept[k] in pieces;
      TrimSolid(kept[k]);
    }
  }
}
