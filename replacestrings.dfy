/**
 * `_replacestrings`: the second pass of the unpacker. It looks for a
 * string-table declaration `var _name=["s0","s1",...];`, writes each string
 * in place of every `_name[i]`, and then cuts off as many leading characters
 * as the declaration had. Without a declaration the text passes through.
 */
module StringTable {
  import opened Common
  import opened Text

  const Opening: string := "=[\""
  const Closing: string := "\"];"
  /** The text between two strings of the table, `","`. */
  const Separator: string := "\",\""

  /**
   * Where `var *(_\w+)\=\["(.*?)"\];` matches: `var` at `start`, spaces up to
   * the name at `nameStart`, the name up to `nameEnd`, and the strings from
   * after `=["` up to the closing `"];` at `stringsEnd`.
   */
  datatype Decl = Decl(start: nat, nameStart: nat, nameEnd: nat, stringsEnd: nat)

  /** Index `k` holds a space. */
  predicate BlankAt(s: string, k: nat)
  {
    k < |s| && s[k] == ' '
  }

  /** `s[i..j]` is all spaces. */
  predicate AllBlanks(s: string, i: nat, j: nat)
  {
    i <= j <= |s| && forall k: nat :: i <= k < j ==> BlankAt(s, k)
  }

  /** `d` is a way for the declaration pattern to match `s`. */
  predicate DeclAt(s: string, d: Decl)
  {
    && CharsAt(s, d.start, "var")
    && d.start + 3 <= d.nameStart && AllBlanks(s, d.start + 3, d.nameStart)
    && CharAt(s, d.nameStart, '_')
    && d.nameStart + 1 < d.nameEnd && AllWord(s, d.nameStart + 1, d.nameEnd)
    && CharsAt(s, d.nameEnd, Opening)
    && d.nameEnd + 3 <= d.stringsEnd && CharsAt(s, d.stringsEnd, Closing)
  }

  /**
   * `x` comes no later than `y` in the engine's order: the leftmost start,
   * then the shortest string list (the spaces and the name are forced).
   */
  predicate DeclFirst(x: Decl, y: Decl)
  {
    || x.start < y.start
    || (x.start == y.start && x.nameStart == y.nameStart && x.nameEnd == y.nameEnd && x.stringsEnd <= y.stringsEnd)
  }

  // ---------------------------------------------------------------------------
  // The search

  /** The end of the run of spaces starting at `i`. */
  function BlanksEnd(s: string, i: nat): (j: nat)
    requires i <= |s|
    ensures AllBlanks(s, i, j)
    ensures j < |s| ==> s[j] != ' '
    decreases |s| - i
  {
    if i < |s| && s[i] == ' ' then BlanksEnd(s, i + 1) else i
  }

  lemma {:induction false} BlanksEndAt(s: string, i: nat, j: nat)
    requires AllBlanks(s, i, j) && (j == |s| || s[j] != ' ')
    ensures BlanksEnd(s, i) == j
    decreases j - i
  {
    if i < j {
      assert BlankAt(s, i);
      BlanksEndAt(s, i + 1, j);
    }
  }

  /** The match starting at `i` that the engine finds, if there is one. */
  function DeclHere(s: string, i: nat): (r: Option<Decl>)
    requires i <= |s|
    ensures r.Some? ==> DeclAt(s, r.value) && r.value.start == i
  {
    if !CharsAt(s, i, "var") then None
    else
      var ns := BlanksEnd(s, i + 3);
      if !CharAt(s, ns, '_') then None
      else
        var ne := WordRunEnd(s, ns + 1);
        if ne == ns + 1 || !CharsAt(s, ne, Opening) then None
        else
          FindFound(s, Closing, ne + 3);
          match Find(s, Closing, ne + 3)
          case None => None
          case Some(e) => Some(Decl(i, ns, ne, e))
  }

  /** A match starting at `i` is found there, with the forced spaces and name and the shortest string list. */
  lemma DeclHereFirst(s: string, d: Decl)
    requires DeclAt(s, d)
    ensures DeclHere(s, d.start).Some? && DeclFirst(DeclHere(s, d.start).value, d)
  {
    BlanksEndAt(s, d.start + 3, d.nameStart);
    assert SameChar(s, d.nameEnd, Opening, 0);
    WordRunEndAt(s, d.nameStart + 1, d.nameEnd);
    FindNoLater(s, Closing, d.nameEnd + 3, d.stringsEnd);
  }

  /** The first match the engine finds at or after `i`. */
  function DeclFrom(s: string, i: nat): (r: Option<Decl>)
    requires i <= |s|
    ensures r.Some? ==> DeclAt(s, r.value) && i <= r.value.start
    decreases |s| - i
  {
    match DeclHere(s, i)
    case Some(d) => Some(d)
    case None => if i == |s| then None else DeclFrom(s, i + 1)
  }

  lemma {:induction false} DeclFromFirst(s: string, i: nat, d: Decl)
    requires i <= d.start && DeclAt(s, d)
    ensures DeclFrom(s, i).Some? && DeclFirst(DeclFrom(s, i).value, d)
    decreases |s| - i
  {
    DeclHereFirst(s, d);
    if DeclHere(s, i).None? {
      assert i != d.start;
      DeclFromFirst(s, i + 1, d);
    }
  }

  /** `re.search` for the declaration. */
  function FindDecl(s: string): Option<Decl>
  {
    DeclFrom(s, 0)
  }

  /** What `FindDecl` returns is a match, and the one the engine tries first. */
  lemma FindDeclMeaning(s: string)
    ensures FindDecl(s).Some? ==> DeclAt(s, FindDecl(s).value)
    ensures FindDecl(s).None? <==> forall d :: !DeclAt(s, d)
    ensures forall d :: DeclAt(s, d) ==> FindDecl(s).Some? && DeclFirst(FindDecl(s).value, d)
  {
    forall d | DeclAt(s, d)
      ensures FindDecl(s).Some? && DeclFirst(FindDecl(s).value, d)
    {
      DeclFromFirst(s, 0, d);
    }
  }

  // ---------------------------------------------------------------------------
  // Inlining the strings

  /** `'%s[%%d]' % varname` filled in with `i`. */
  function Ref(name: string, i: nat): string
  {
    name + "[" + NatToString(i) + "]"
  }

  /** `'"%s"' % value`. */
  function Quoted(v: string): string
  {
    "\"" + v + "\""
  }

  /** The text after the first `n` rounds of the loop: each `Ref(name, i)` replaced by `Quoted(values[i])`, in order. */
  function Inlined(s: string, name: string, values: seq<string>, n: nat): string
    requires n <= |values|
    decreases n
  {
    if n == 0 then s else ReplaceAll(Inlined(s, name, values, n - 1), Ref(name, n - 1), Quoted(values[n - 1]))
  }

  /** `s[n:]`: empty when `s` is shorter than `n`. */
  function DropFront(s: string, n: nat): string
  {
    if n <= |s| then s[n..] else []
  }

  /** The name the declaration binds, `match.group(1)`. */
  function DeclName(s: string, d: Decl): string
    requires d.nameStart <= d.nameEnd <= |s|
  {
    s[d.nameStart..d.nameEnd]
  }

  /** The strings of the table, `match.group(2).split('","')`. */
  function DeclValues(s: string, d: Decl): seq<string>
    requires d.nameEnd + 3 <= d.stringsEnd <= |s|
  {
    SplitOn(s[d.nameEnd + 3..d.stringsEnd], Separator)
  }

  /** `len(match.group(0))`. */
  function DeclLength(d: Decl): nat
    requires d.start <= d.stringsEnd
  {
    d.stringsEnd + 3 - d.start
  }

  /** What `_replacestrings` returns. */
  function ReplacedStrings(source: string): string
  {
    match FindDecl(source)
    case None => source
    case Some(d) =>
      var values := DeclValues(source, d);
      DropFront(Inlined(source, DeclName(source, d), values, |values|), DeclLength(d))
  }

  /** `_replacestrings`, with its loop over the enumerated strings. */
  method ReplaceStrings(source: string) returns (r: string)
    ensures r == ReplacedStrings(source)
  {
    var m := FindDecl(source);
    if m.None? {
      return source;
    }
    var d := m.value;
    var varname := source[d.nameStart..d.nameEnd];
    var startpoint := d.stringsEnd + 3 - d.start;
    var lookup := SplitOn(source[d.nameEnd + 3..d.stringsEnd], Separator);
    assert varname == DeclName(source, d) && lookup == DeclValues(source, d) && startpoint == DeclLength(d);
    assert ReplacedStrings(source) == DropFront(Inlined(source, varname, lookup, |lookup|), startpoint);
    var s := source;
    for index := 0 to |lookup|
      invariant s == Inlined(source, varname, lookup, index)
    {
      s := ReplaceAll(s, Ref(varname, index), Quoted(lookup[index]));
    }
    r := DropFront(s, startpoint);
  }

  // ---------------------------------------------------------------------------
  // Properties

  /** Without a declaration the text is returned unchanged. */
  lemma ReplacedStringsWithoutDecl(source: string)
    requires forall d :: !DeclAt(source, d)
    ensures ReplacedStrings(source) == source
  {
    FindDeclMeaning(source);
  }

  /** A declared name holds no double quote. */
  lemma DeclNameUnquoted(s: string, d: Decl)
    requires DeclAt(s, d)
    ensures '"' !in DeclName(s, d)
  {
    var name := DeclName(s, d);
    forall k | 0 <= k < |name|
      ensures name[k] != '"'
    {
      assert name[k] == s[d.nameStart + k];
      if k > 0 {
        assert WordAt(s, d.nameStart + k);
      }
    }
  }

  /**
   * After the loop no reference `name[i]` to a string of the table is left,
   * provided no string itself spells such a reference.
   */
  lemma {:induction false} InlinedRemovesRefs(s: string, name: string, values: seq<string>, n: nat)
    requires n <= |values| && '"' !in name
    requires forall j, i :: 0 <= j < n && 0 <= i < n ==> !Contains(Quoted(values[j]), Ref(name, i))
    ensures forall i :: 0 <= i < n ==> !Contains(Inlined(s, name, values, n), Ref(name, i))
    decreases n
  {
    if n > 0 {
      InlinedRemovesRefs(s, name, values, n - 1);
      var prev := Inlined(s, name, values, n - 1);
      var target := Ref(name, n - 1);
      var repl := Quoted(values[n - 1]);
      QuotedFenced(values[n - 1]);
      forall i | 0 <= i < n
        ensures !Contains(ReplaceAll(prev, target, repl), Ref(name, i))
      {
        RefUnquoted(name, i);
        assert Ref(name, i) == target || !Contains(prev, Ref(name, i));
        assert !Contains(repl, Ref(name, i));
        NoOccurrenceAfterReplace(prev, target, repl, Ref(name, i), '"');
      }
    }
  }

  lemma QuotedFenced(v: string)
    ensures |Quoted(v)| >= 2 && Quoted(v)[0] == '"' && Quoted(v)[|Quoted(v)| - 1] == '"'
  {
  }

  lemma RefUnquoted(name: string, i: nat)
    requires '"' !in name
    ensures '"' !in Ref(name, i) && |Ref(name, i)| > 0
  {
    var digits := NatToString(i);
    assert forall k :: 0 <= k < |digits| ==> IsDigitChar(digits[k]);
  }

  // ---------------------------------------------------------------------------
  // A declaration at the head of the text

  /** A declaration up to its closing `"];`: `var`, spaces, the name `_tail`, `=["` and the strings joined by `","`. */
  function DeclHead(blanks: string, tail: string, values: seq<string>): string
  {
    "var" + blanks + "_" + tail + Opening + Join(values, Separator)
  }

  /** The whole declaration `var _tail=["v0","v1",...];`. */
  function TableDecl(blanks: string, tail: string, values: seq<string>): string
  {
    DeclHead(blanks, tail, values) + Closing
  }

  /** Spaces only, a name of word characters, and strings free of `"` and `]`. */
  predicate TableShape(blanks: string, tail: string, values: seq<string>)
  {
    && (forall k :: 0 <= k < |blanks| ==> blanks[k] == ' ')
    && IsWordRun(tail)
    && |values| >= 1
    && forall i :: 0 <= i < |values| ==> '"' !in values[i] && ']' !in values[i]
  }

  /** Where the parts of a leading declaration lie in `s`. */
  lemma HeadPieces(s: string, blanks: string, tail: string, values: seq<string>, rest: string, d: Decl)
    requires s == TableDecl(blanks, tail, values) + rest
    requires d == Decl(0, 3 + |blanks|, 3 + |blanks| + 1 + |tail|, |DeclHead(blanks, tail, values)|)
    ensures d.stringsEnd == d.nameEnd + 3 + |Join(values, Separator)| && d.stringsEnd + 3 <= |s|
    ensures |TableDecl(blanks, tail, values)| == d.stringsEnd + 3
    ensures s[..3] == "var" && s[3..d.nameStart] == blanks && s[d.nameStart] == '_'
    ensures s[d.nameStart + 1..d.nameEnd] == tail && s[d.nameEnd..d.nameEnd + 3] == Opening
    ensures s[d.nameEnd + 3..d.stringsEnd] == Join(values, Separator) && s[d.stringsEnd..d.stringsEnd + 3] == Closing
  {
    var body := Join(values, Separator);
    var h := DeclHead(blanks, tail, values);
    var ns := 3 + |blanks|;
    var ne := ns + 1 + |tail|;
    var h1 := "var" + blanks;
    var h2 := h1 + "_";
    var h3 := h2 + tail;
    var h4 := h3 + Opening;
    assert h == h4 + body;
    assert s == h4 + body + Closing + rest;
    assert s[..|h4|] == h4;
    assert h4[..|h3|] == h3 && h4[|h3|..] == Opening;
    assert h3[..|h2|] == h2 && h3[|h2|..] == tail;
    assert h2[..|h1|] == h1 && h2[|h1|] == '_';
    assert h1[..3] == "var" && h1[3..] == blanks;
  }

  /** `re.search` finds a leading declaration, with its name, strings and length. */
  lemma FindHeadDecl(blanks: string, tail: string, values: seq<string>, rest: string)
    requires TableShape(blanks, tail, values)
    ensures var s := TableDecl(blanks, tail, values) + rest;
            var ns := 3 + |blanks|;
            var d := Decl(0, ns, ns + 1 + |tail|, |DeclHead(blanks, tail, values)|);
            && FindDecl(s) == Some(d)
            && DeclAt(s, d)
            && DeclName(s, d) == "_" + tail
            && DeclValues(s, d) == values
            && DeclLength(d) == |TableDecl(blanks, tail, values)|
  {
    var s := TableDecl(blanks, tail, values) + rest;
    var ns := 3 + |blanks|;
    var ne := ns + 1 + |tail|;
    var d := Decl(0, ns, ne, |DeclHead(blanks, tail, values)|);
    var body := Join(values, Separator);
    HeadPieces(s, blanks, tail, values, rest, d);
    HeadValues(body, values);
    JoinAvoids(values, Separator, ']');
    HeadFound(s, blanks, tail, body, values, d);
  }

  /** The parts of a leading declaration, where `HeadPieces` puts them, are the match `re.search` returns. */
  lemma HeadFound(s: string, blanks: string, tail: string, body: string, values: seq<string>, d: Decl)
    requires TableShape(blanks, tail, values)
    requires d.start == 0 && d.nameStart == 3 + |blanks| && d.nameEnd == d.nameStart + 1 + |tail|
    requires d.stringsEnd == d.nameEnd + 3 + |body| && d.stringsEnd + 3 <= |s|
    requires s[..3] == "var" && s[3..d.nameStart] == blanks && s[d.nameStart] == '_'
    requires s[d.nameStart + 1..d.nameEnd] == tail && s[d.nameEnd..d.nameEnd + 3] == Opening
    requires s[d.nameEnd + 3..d.stringsEnd] == body && s[d.stringsEnd..d.stringsEnd + 3] == Closing
    requires ']' !in body && SplitOn(body, Separator) == values
    ensures FindDecl(s) == Some(d) && DeclAt(s, d)
    ensures DeclName(s, d) == "_" + tail && DeclValues(s, d) == values
  {
    HeadDeclAt(s, blanks, tail, d);
    assert SameChar(s, d.stringsEnd, Closing, 0);
    HeadNoEarlyClosing(s, body, d);
    DeclFoundAt(s, d);
    HeadName(s, tail, d);
    HeadGroupValues(s, body, values, d);
  }

  /** The group `_tail` of a leading declaration. */
  lemma HeadName(s: string, tail: string, d: Decl)
    requires d.nameStart + 1 <= d.nameEnd <= |s|
    requires s[d.nameStart] == '_' && s[d.nameStart + 1..d.nameEnd] == tail
    ensures DeclName(s, d) == "_" + tail
  {
    assert s[d.nameStart..d.nameEnd] == [s[d.nameStart]] + s[d.nameStart + 1..d.nameEnd];
    assert [s[d.nameStart]] == "_";
  }

  /** The strings of a leading declaration, split at `","`. */
  lemma HeadGroupValues(s: string, body: string, values: seq<string>, d: Decl)
    requires d.nameEnd + 3 <= d.stringsEnd <= |s|
    requires s[d.nameEnd + 3..d.stringsEnd] == body && SplitOn(body, Separator) == values
    ensures DeclValues(s, d) == values
  {
  }

  /** Splitting the strings of a table at `","` gives them back. */
  lemma HeadValues(body: string, values: seq<string>)
    requires body == Join(values, Separator)
    requires |values| >= 1 && forall i :: 0 <= i < |values| ==> '"' !in values[i]
    ensures SplitOn(body, Separator) == values
  {
    assert Separator[0] == '"';
    SplitOnJoin(values, Separator);
  }

  /** The parts of a leading declaration make a match of the pattern. */
  lemma HeadDeclAt(s: string, blanks: string, tail: string, d: Decl)
    requires (forall k :: 0 <= k < |blanks| ==> blanks[k] == ' ') && IsWordRun(tail)
    requires d.start == 0 && d.nameStart == 3 + |blanks| && d.nameEnd == d.nameStart + 1 + |tail|
    requires d.nameEnd + 3 <= d.stringsEnd && d.stringsEnd + 3 <= |s|
    requires s[..3] == "var" && s[3..d.nameStart] == blanks && s[d.nameStart] == '_'
    requires s[d.nameStart + 1..d.nameEnd] == tail
    requires s[d.nameEnd..d.nameEnd + 3] == Opening && s[d.stringsEnd..d.stringsEnd + 3] == Closing
    ensures DeclAt(s, d)
  {
    CharsAtOccurs(s, 0, "var");
    CharsAtOccurs(s, d.nameEnd, Opening);
    CharsAtOccurs(s, d.stringsEnd, Closing);
    forall k: nat | 3 <= k < d.nameStart
      ensures BlankAt(s, k)
    {
      assert s[k] == blanks[k - 3];
    }
    forall k: nat | d.nameStart + 1 <= k < d.nameEnd
      ensures WordAt(s, k)
    {
      assert s[k] == tail[k - d.nameStart - 1];
    }
  }

  /** No `"];` closes a leading declaration early: its strings hold no `]`. */
  lemma HeadNoEarlyClosing(s: string, body: string, d: Decl)
    requires d.stringsEnd == d.nameEnd + 3 + |body| && d.stringsEnd + 3 <= |s|
    requires s[d.nameEnd + 3..d.stringsEnd] == body && ']' !in body && s[d.stringsEnd] == '"'
    ensures forall j: nat :: d.nameEnd + 3 <= j < d.stringsEnd ==> !CharsAt(s, j, Closing)
  {
    forall j: nat | d.nameEnd + 3 <= j < d.stringsEnd
      ensures !CharsAt(s, j, Closing)
    {
      if j + 1 < d.stringsEnd {
        assert s[j + 1] == body[j + 1 - d.nameEnd - 3];
      }
      assert !SameChar(s, j, Closing, 1);
    }
  }

  /** A match at the head of `s` with no `"];` before its own is the one the engine takes. */
  lemma DeclFoundAt(s: string, d: Decl)
    requires DeclAt(s, d) && d.start == 0
    requires forall j: nat :: d.nameEnd + 3 <= j < d.stringsEnd ==> !CharsAt(s, j, Closing)
    ensures FindDecl(s) == Some(d)
  {
    DeclHereFirst(s, d);
  }

  /** Every character of a reference is a word character of the name, a digit or a bracket. */
  lemma RefChars(name: string, i: nat)
    ensures forall k :: 0 <= k < |Ref(name, i)| ==>
      Ref(name, i)[k] in name || Ref(name, i)[k] == '[' || Ref(name, i)[k] == ']' || IsDigitChar(Ref(name, i)[k])
    ensures |Ref(name, i)| >= 3 && Ref(name, i)[|Ref(name, i)| - 1] == ']' && IsDigitChar(Ref(name, i)[|Ref(name, i)| - 2])
  {
    var digits := NatToString(i);
    assert Ref(name, i) == name + "[" + digits + "]";
    assert Ref(name, i)[|Ref(name, i)| - 2] == digits[|digits| - 1];
  }

  /** A reference is not found inside a declaration whose only `]` is the one in its closing `"];`. */
  lemma RefNotInDecl(head: string, name: string, i: nat)
    requires ']' !in head
    ensures !Contains(head + Closing, Ref(name, i))
  {
    var x := head + Closing;
    var r := Ref(name, i);
    RefChars(name, i);
    ContainsMeaning(x, r);
    forall j | 0 <= j
      ensures !OccursAt(x, j, r)
    {
      if j + |r| <= |x| {
        var e := j + |r| - 1;
        assert x[j..j + |r|][|r| - 1] == x[e];
        assert x[j..j + |r|][|r| - 2] == x[e - 1];
        if e < |head| {
          assert x[e] == head[e];
        } else if e == |head| + 1 {
          assert x[e - 1] == '"';
        }
      }
    }
  }

  /** The strings are written into the text after a leading declaration and the declaration itself is left as it is. */
  lemma {:induction false} InlinedAfterDecl(decl: string, rest: string, name: string, values: seq<string>, n: nat)
    requires n <= |values| && |decl| > 0
    requires forall i :: 0 <= i < n ==> decl[|decl| - 1] !in Ref(name, i) && !Contains(decl, Ref(name, i))
    ensures Inlined(decl + rest, name, values, n) == decl + Inlined(rest, name, values, n)
    decreases n
  {
    if n > 0 {
      InlinedAfterDecl(decl, rest, name, values, n - 1);
      RefChars(name, n - 1);
      ReplaceAllFenced(decl, Inlined(rest, name, values, n - 1), Ref(name, n - 1), Quoted(values[n - 1]));
    }
  }

  /**
   * With the declaration at the head of the text, `_replacestrings` returns
   * the text after it with every reference `_tail[i]` replaced by the quoted
   * `i`-th string: the declaration is cut off exactly.
   */
  lemma ReplacedStringsHeadDecl(blanks: string, tail: string, values: seq<string>, rest: string)
    requires TableShape(blanks, tail, values)
    ensures ReplacedStrings(TableDecl(blanks, tail, values) + rest) == Inlined(rest, "_" + tail, values, |values|)
  {
    var decl := TableDecl(blanks, tail, values);
    var head := DeclHead(blanks, tail, values);
    var name := "_" + tail;
    FindHeadDecl(blanks, tail, values, rest);
    JoinAvoids(values, Separator, ']');
    assert ']' !in head;
    forall i | 0 <= i < |values|
      ensures decl[|decl| - 1] !in Ref(name, i) && !Contains(decl, Ref(name, i))
    {
      RefNotInDecl(head, name, i);
      RefChars(name, i);
      assert decl[|decl| - 1] == ';';
      forall k | 0 <= k < |Ref(name, i)|
        ensures Ref(name, i)[k] != ';'
      {
        if Ref(name, i)[k] in name {
          var m :| 0 <= m < |name| && name[m] == Ref(name, i)[k];
          if m > 0 {
            assert name[m] == tail[m - 1];
          }
        }
      }
    }
    InlinedAfterDecl(decl, rest, name, values, |values|);
    assert (decl + Inlined(rest, name, values, |values|))[|decl|..] == Inlined(rest, name, values, |values|);
  }

  /** After a leading declaration, none of its references is left, provided no string spells one. */
  lemma ReplacedStringsHeadDeclComplete(blanks: string, tail: string, values: seq<string>, rest: string)
    requires TableShape(blanks, tail, values)
    requires forall j, i :: 0 <= j < |values| && 0 <= i < |values| ==> !Contains(Quoted(values[j]), Ref("_" + tail, i))
    ensures forall i :: 0 <= i < |values| ==>
      !Contains(ReplacedStrings(TableDecl(blanks, tail, values) + rest), Ref("_" + tail, i))
  {
    ReplacedStringsHeadDecl(blanks, tail, values, rest);
    assert '"' !in "_" + tail by {
      forall k | 0 <= k < |"_" + tail|
        ensures ("_" + tail)[k] != '"'
      {
        if k > 0 {
          assert ("_" + tail)[k] == tail[k - 1];
        }
      }
    }
    InlinedRemovesRefs(rest, "_" + tail, values, |values|);
  }
}
