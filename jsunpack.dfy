/**
 * The P.A.C.K.E.R. unpacker proper: the signature test `detect`, the
 * word-by-word substitution `unpack` performs with its `lookup` callback,
 * and `unpack` itself, which chains argument extraction, the count check,
 * the functor and the string-table pass.
 */
module JsUnpack {
  import opened Common
  import opened Text
  import opened Unbasing
  import opened ArgsFilter
  import opened StringTable

  // ---------------------------------------------------------------------------
  // detect

  /** The head of a packed script once its spaces are deleted, up to its last parameter's name. */
  const Signature: string := "eval(function(p,a,c,k,e,"

  /** `source.replace(' ', '')`. */
  function StripSpaces(s: string): string
  {
    ReplaceAll(s, " ", "")
  }

  /** `detect`: the space-free text contains the signature followed by `r` or `d`. */
  predicate Detect(s: string)
  {
    Contains(StripSpaces(s), Signature + "r") || Contains(StripSpaces(s), Signature + "d")
  }

  /** Deleting spaces removes every space and keeps every other character, in order. */
  lemma {:induction false} StripSpacesMeaning(s: string)
    ensures ' ' !in StripSpaces(s)
    ensures |StripSpaces(s)| == |s| - CountChar(s, ' ')
    ensures ' ' !in s ==> StripSpaces(s) == s
    decreases |s|
  {
    if s != [] {
      StripSpacesMeaning(s[1..]);
      assert s[..1] == [s[0]];
      if s[0] == ' ' {
        assert StripSpaces(s) == StripSpaces(s[1..]);
      } else {
        assert StripSpaces(s) == [s[0]] + StripSpaces(s[1..]);
        assert ' ' !in s ==> ' ' !in s[1..];
      }
    }
  }

  /** The space-free text of a concatenation is the concatenation of the space-free texts. */
  lemma StripSpacesAppend(x: string, y: string)
    ensures StripSpaces(x + y) == StripSpaces(x) + StripSpaces(y)
  {
    ReplaceCharAppend(x, y, ' ', "");
  }

  /** Inserting a space anywhere never changes the answer of `detect`. */
  lemma DetectIgnoresSpaces(x: string, y: string)
    ensures Detect(x + " " + y) == Detect(x + y)
  {
    StripSpacesAppend(x + " ", y);
    StripSpacesAppend(x, " ");
    StripSpacesAppend(x, y);
    assert StripSpaces(" ") == "";
    assert StripSpaces(x) + "" == StripSpaces(x);
  }

  /** Any text holding the signature and then `r` or `d`, with spaces anywhere around, is detected. */
  lemma DetectSignature(x: string, c: char, y: string)
    requires c == 'r' || c == 'd'
    ensures Detect(x + (Signature + [c]) + y)
  {
    var sig := Signature + [c];
    SignatureKeptBySpaceRemoval(c);
    var sx, sy := StripSpaces(x), StripSpaces(y);
    StripSpacesAppend(x + sig, y);
    StripSpacesAppend(x, sig);
    var t := sx + sig + sy;
    assert StripSpaces(x + sig + y) == t;
    assert t[|sx|..|sx| + |sig|] == sig;
    assert OccursAt(t, |sx|, sig);
    ContainsMeaning(t, sig);
    assert Contains(t, Signature + "r") || Contains(t, Signature + "d");
  }

  /** The signature with its letter has no space, so removing spaces keeps it. */
  lemma SignatureKeptBySpaceRemoval(c: char)
    requires c == 'r' || c == 'd'
    ensures StripSpaces(Signature + [c]) == Signature + [c]
  {
    var sig := Signature + [c];
    assert forall k :: 0 <= k < |sig| ==> sig[k] != ' ';
    StripSpacesMeaning(sig);
  }

  /** `detect` holds exactly when the space-free text has the signature with `r` or `d` right after it. */
  lemma DetectExactly(s: string)
    ensures Detect(s) <==> exists j :: SignatureAt(StripSpaces(s), j)
  {
    var t := StripSpaces(s);
    ContainsMeaning(t, Signature + "r");
    ContainsMeaning(t, Signature + "d");
    if Detect(s) {
      var c := if Contains(t, Signature + "r") then 'r' else 'd';
      var j :| OccursAt(t, j, Signature + [c]);
      SignatureWithLetter(t, j, c);
      assert SignatureAt(t, j);
    }
    if exists j :: SignatureAt(t, j) {
      var j :| SignatureAt(t, j);
      var c := t[j + |Signature|];
      SignatureWithLetter(t, j, c);
      if c == 'r' {
        assert OccursAt(t, j, Signature + "r");
      } else {
        assert OccursAt(t, j, Signature + "d");
      }
    }
  }

  /** The signature occurs at `j` with `r` or `d` right after it. */
  predicate SignatureAt(t: string, j: int)
  {
    OccursAt(t, j, Signature) && j + |Signature| < |t| && t[j + |Signature|] in "rd"
  }

  lemma SignatureWithLetter(t: string, j: int, c: char)
    requires c == 'r' || c == 'd'
    ensures OccursAt(t, j, Signature + [c]) <==> OccursAt(t, j, Signature) && j + |Signature| < |t| && t[j + |Signature|] == c
  {
    var n := |Signature|;
    if 0 <= j && j + n < |t| {
      assert t[j..j + n + 1] == t[j..j + n] + [t[j + n]];
      assert (Signature + [c])[..n] == Signature;
    }
  }

  // ---------------------------------------------------------------------------
  // The tokens `\b\w+\b` sees

  /** A piece of the payload: a maximal run of word characters, or one other character. */
  datatype Piece = Word(text: string) | Other(c: char)

  /** The payload cut into the matches of `\b\w+\b` and the characters between them. */
  function Tokens(s: string): seq<Piece>
    decreases |s|
  {
    if s == [] then []
    else if IsWordChar(s[0]) then
      var n := WordRunEnd(s, 0);
      [Word(s[..n])] + Tokens(s[n..])
    else [Other(s[0])] + Tokens(s[1..])
  }

  function SpellPiece(p: Piece): string
  {
    match p
    case Word(w) => w
    case Other(c) => [c]
  }

  /** The text a sequence of pieces stands for. */
  function Spell(ps: seq<Piece>): string
    decreases |ps|
  {
    if ps == [] then [] else SpellPiece(ps[0]) + Spell(ps[1..])
  }

  /** Words are non-empty runs of word characters, other pieces are not word characters, and no two words touch. */
  predicate WellTokenized(ps: seq<Piece>)
  {
    && (forall i :: 0 <= i < |ps| && ps[i].Word? ==> IsWordRun(ps[i].text))
    && (forall i :: 0 <= i < |ps| && ps[i].Other? ==> !IsWordChar(ps[i].c))
    && (forall i :: 0 <= i < |ps| - 1 ==> !(ps[i].Word? && ps[i + 1].Word?))
  }

  lemma WellTokenizedTail(ps: seq<Piece>)
    requires |ps| > 0 && WellTokenized(ps)
    ensures WellTokenized(ps[1..])
  {
    forall i | 0 <= i < |ps| - 2
      ensures !(ps[1..][i].Word? && ps[1..][i + 1].Word?)
    {
      assert ps[1..][i] == ps[i + 1] && ps[1..][i + 1] == ps[i + 2];
    }
  }

  /** Spelling the tokens of a text gives the text back. */
  lemma {:induction false} TokensSpell(s: string)
    ensures Spell(Tokens(s)) == s
    decreases |s|
  {
    if s != [] {
      var n := if IsWordChar(s[0]) then WordRunEnd(s, 0) else 1;
      var head := if IsWordChar(s[0]) then Word(s[..n]) else Other(s[0]);
      TokensSpell(s[n..]);
      assert Tokens(s) == [head] + Tokens(s[n..]);
      assert SpellPiece(head) == s[..n];
      assert s[..n] + s[n..] == s;
    }
  }

  /** The tokens of a text are well formed: words are maximal runs of word characters, and the first token is a word exactly when the text starts with a word character. */
  lemma {:induction false} TokensWellTokenized(s: string)
    ensures WellTokenized(Tokens(s))
    ensures |s| > 0 ==> |Tokens(s)| > 0 && (Tokens(s)[0].Word? <==> IsWordChar(s[0]))
    decreases |s|
  {
    if s != [] {
      var n := if IsWordChar(s[0]) then WordRunEnd(s, 0) else 1;
      var head := if IsWordChar(s[0]) then Word(s[..n]) else Other(s[0]);
      TokensWellTokenized(s[n..]);
      var rest := Tokens(s[n..]);
      assert Tokens(s) == [head] + rest;
      if head.Word? {
        AllWordPrefix(s, n);
        if n < |s| {
          assert !IsWordChar(s[n..][0]);
        }
      }
      WellTokenizedPrepend(head, rest);
    }
  }

  /** A piece put before well-formed pieces keeps them well formed, unless it is a word that touches another. */
  lemma WellTokenizedPrepend(head: Piece, rest: seq<Piece>)
    requires WellTokenized(rest)
    requires head.Word? ==> IsWordRun(head.text) && (|rest| > 0 ==> !rest[0].Word?)
    requires head.Other? ==> !IsWordChar(head.c)
    ensures WellTokenized([head] + rest)
  {
    var ps := [head] + rest;
    forall i | 0 <= i < |ps| - 1
      ensures !(ps[i].Word? && ps[i + 1].Word?)
    {
      if i > 0 {
        assert ps[i] == rest[i - 1] && ps[i + 1] == rest[i];
      }
    }
    forall i | 0 <= i < |ps| && ps[i].Word?
      ensures IsWordRun(ps[i].text)
    {
      if i > 0 {
        assert ps[i] == rest[i - 1];
      }
    }
    forall i | 0 <= i < |ps| && ps[i].Other?
      ensures !IsWordChar(ps[i].c)
    {
      if i > 0 {
        assert ps[i] == rest[i - 1];
      }
    }
  }

  lemma {:induction false} SpellAppend(ps: seq<Piece>, qs: seq<Piece>)
    ensures Spell(ps + qs) == Spell(ps) + Spell(qs)
    decreases |ps|
  {
    if ps != [] {
      assert (ps + qs)[1..] == ps[1..] + qs;
      SpellAppend(ps[1..], qs);
    } else {
      assert ps + qs == qs;
    }
  }

  /** Well-formed pieces are exactly what tokenizing their text gives: the cut is unique. */
  lemma {:induction false} TokensOfSpell(ps: seq<Piece>)
    requires WellTokenized(ps)
    ensures Tokens(Spell(ps)) == ps
    decreases |ps|
  {
    if ps != [] {
      var s := Spell(ps);
      var head := SpellPiece(ps[0]);
      var t := Spell(ps[1..]);
      WellTokenizedTail(ps);
      TokensOfSpell(ps[1..]);
      assert s == head + t;
      if |ps| > 1 {
        assert Spell(ps[1..]) == SpellPiece(ps[1]) + Spell(ps[2..]);
      }
      match ps[0]
      case Word(w) =>
        assert IsWordRun(w);
        assert |ps| > 1 ==> ps[1].Other? && !IsWordChar(ps[1].c) && t[0] == ps[1].c;
        assert s[..|w|] == w && s[|w|..] == t;
        AllWordPrefix(s, |w|);
        WordRunEndAt(s, 0, |w|);
      case Other(c) =>
        assert s[0] == c && s[1..] == t;
    }
  }

  /** Well-formed pieces on both sides of a piece that is not a word character are well formed together. */
  lemma WellTokenizedAround(ps: seq<Piece>, c: char, qs: seq<Piece>)
    requires WellTokenized(ps) && WellTokenized(qs) && !IsWordChar(c)
    ensures WellTokenized(ps + [Other(c)] + qs)
  {
    var rs := ps + [Other(c)] + qs;
    var n := |ps|;
    forall i | 0 <= i < |rs|
      ensures rs[i] == (if i < n then ps[i] else if i == n then Other(c) else qs[i - n - 1])
    {
    }
    forall i | 0 <= i < |rs| - 1
      ensures !(rs[i].Word? && rs[i + 1].Word?)
    {
      if i < n - 1 {
        assert rs[i] == ps[i] && rs[i + 1] == ps[i + 1];
      } else if i > n {
        assert rs[i] == qs[i - n - 1] && rs[i + 1] == qs[i - n];
      }
    }
  }

  /** A character that is not a word character splits the tokens of a text in two. */
  lemma TokensAtOther(x: string, c: char, y: string)
    requires !IsWordChar(c)
    ensures Tokens(x + [c] + y) == Tokens(x) + [Other(c)] + Tokens(y)
  {
    var ps := Tokens(x) + [Other(c)] + Tokens(y);
    TokensSpell(x);
    TokensSpell(y);
    TokensWellTokenized(x);
    TokensWellTokenized(y);
    SpellAppend(Tokens(x) + [Other(c)], Tokens(y));
    SpellAppend(Tokens(x), [Other(c)]);
    assert Spell([Other(c)]) == [c];
    WellTokenizedAround(Tokens(x), c, Tokens(y));
    TokensOfSpell(ps);
  }

  /** A run of word characters is one token. */
  lemma TokensOfWord(w: string)
    requires IsWordRun(w)
    ensures Tokens(w) == [Word(w)]
  {
    assert Spell([Word(w)]) == w;
    TokensOfSpell([Word(w)]);
  }

  // ---------------------------------------------------------------------------
  // lookup and the substitution pass

  /**
   * `lookup`: the symbol-table entry at the word's decoded value, or the word
   * itself when that entry is empty; the functor's error, or an index past
   * the table's end, is raised out of the substitution.
   */
  function Lookup(symtab: seq<string>, base: nat, word: string): Result<string, UnpackFailure>
    requires base <= 95
  {
    match Unbase(base, word)
    case Err(e) => Err(e)
    case Ok(i) =>
      if i < |symtab| then Ok(if symtab[i] != "" then symtab[i] else word)
      else Err(SymbolOutOfRange(word, i))
  }

  /** What the substitution writes for one piece: a word's lookup, any other character as it is. */
  function PieceImage(symtab: seq<string>, base: nat, p: Piece): Result<string, UnpackFailure>
    requires base <= 95
  {
    match p
    case Word(w) => Lookup(symtab, base, w)
    case Other(c) => Ok([c])
  }

  /** Two outputs written one after the other; the first failure is the one raised. */
  function Glue(a: Result<string, UnpackFailure>, b: Result<string, UnpackFailure>): Result<string, UnpackFailure>
  {
    if a.Err? then a else if b.Err? then b else Ok(a.value + b.value)
  }

  function SubstitutePieces(symtab: seq<string>, base: nat, ps: seq<Piece>): Result<string, UnpackFailure>
    requires base <= 95
    decreases |ps|
  {
    if ps == [] then Ok([]) else Glue(PieceImage(symtab, base, ps[0]), SubstitutePieces(symtab, base, ps[1..]))
  }

  /** `re.sub(r'\b\w+\b', lookup, payload)`: every maximal word run through `lookup`, from left to right. */
  function Substitute(symtab: seq<string>, base: nat, payload: string): Result<string, UnpackFailure>
    requires base <= 95
  {
    SubstitutePieces(symtab, base, Tokens(payload))
  }

  lemma GlueAssociative(a: Result<string, UnpackFailure>, b: Result<string, UnpackFailure>, c: Result<string, UnpackFailure>)
    ensures Glue(Glue(a, b), c) == Glue(a, Glue(b, c))
  {
    if a.Ok? && b.Ok? && c.Ok? {
      assert a.value + b.value + c.value == a.value + (b.value + c.value);
    }
  }

  /** Substituting in two runs of pieces, one after the other, is substituting in both. */
  lemma {:induction false} SubstitutePiecesAppend(symtab: seq<string>, base: nat, ps: seq<Piece>, qs: seq<Piece>)
    requires base <= 95
    ensures SubstitutePieces(symtab, base, ps + qs)
         == Glue(SubstitutePieces(symtab, base, ps), SubstitutePieces(symtab, base, qs))
    decreases |ps|
  {
    if ps == [] {
      assert ps + qs == qs;
      var r := SubstitutePieces(symtab, base, qs);
      if r.Ok? {
        assert [] + r.value == r.value;
      }
    } else {
      assert (ps + qs)[0] == ps[0] && (ps + qs)[1..] == ps[1..] + qs;
      SubstitutePiecesAppend(symtab, base, ps[1..], qs);
      GlueAssociative(PieceImage(symtab, base, ps[0]), SubstitutePieces(symtab, base, ps[1..]), SubstitutePieces(symtab, base, qs));
    }
  }

  /**
   * A character that is not a word character is copied as it is, and the
   * text on each side of it is substituted on its own: the pass never joins
   * or splits words and keeps every other character, in order.
   */
  lemma SubstituteAtOther(symtab: seq<string>, base: nat, x: string, c: char, y: string)
    requires base <= 95 && !IsWordChar(c)
    ensures Substitute(symtab, base, x + [c] + y)
         == Glue(Glue(Substitute(symtab, base, x), Ok([c])), Substitute(symtab, base, y))
  {
    TokensAtOther(x, c, y);
    SubstitutePiecesAppend(symtab, base, Tokens(x) + [Other(c)], Tokens(y));
    SubstitutePiecesAppend(symtab, base, Tokens(x), [Other(c)]);
    assert [Other(c)][1..] == [];
    assert [c] + [] == [c];
    assert SubstitutePieces(symtab, base, [Other(c)]) == Ok([c]);
  }

  /** A whole word run is looked up as one symbol. */
  lemma SubstituteWord(symtab: seq<string>, base: nat, w: string)
    requires base <= 95 && IsWordRun(w)
    ensures Substitute(symtab, base, w) == Lookup(symtab, base, w)
  {
    TokensOfWord(w);
    var r := Lookup(symtab, base, w);
    assert SubstitutePieces(symtab, base, [Word(w)]) == Glue(r, Ok([]));
    if r.Ok? {
      assert r.value + [] == r.value;
    }
  }

  /** The pass succeeds exactly when every word's lookup does; a failure is some word's. */
  lemma {:induction false} SubstitutePiecesOutcome(symtab: seq<string>, base: nat, ps: seq<Piece>)
    requires base <= 95
    ensures SubstitutePieces(symtab, base, ps).Ok? <==>
      forall i :: 0 <= i < |ps| && ps[i].Word? ==> Lookup(symtab, base, ps[i].text).Ok?
    ensures SubstitutePieces(symtab, base, ps).Err? ==>
      exists i :: 0 <= i < |ps| && ps[i].Word? && Lookup(symtab, base, ps[i].text) == SubstitutePieces(symtab, base, ps)
    decreases |ps|
  {
    if ps != [] {
      SubstitutePiecesOutcome(symtab, base, ps[1..]);
      var r := SubstitutePieces(symtab, base, ps);
      forall i | 1 <= i < |ps|
        ensures ps[i] == ps[1..][i - 1]
      {
      }
      if PieceImage(symtab, base, ps[0]).Err? {
        assert Lookup(symtab, base, ps[0].text) == r;
      } else if r.Err? {
        var k :| 0 <= k < |ps[1..]| && ps[1..][k].Word? && Lookup(symtab, base, ps[1..][k].text) == r;
        assert ps[k + 1] == ps[1..][k];
      }
    }
  }

  /** An entry spelled in the base's own alphabet is looked up to its table entry, or kept when that is empty. */
  lemma LookupEncoded(symtab: seq<string>, base: nat, i: nat)
    requires 2 <= base <= 95 && i < |symtab|
    ensures var w := Encode(i, CanonicalAlphabet(base));
            Lookup(symtab, base, w) == Ok(if symtab[i] != "" then symtab[i] else w)
  {
    UnbaseEncode(i, base);
  }

  /**
   * The `re.sub` pass with the `lookup` callback: the matches taken from the
   * left, each word handed to the functor, the first failure raised.
   */
  method SubstituteWords(unbase: Unbaser, symtab: seq<string>, payload: string) returns (r: Result<string, UnpackFailure>)
    requires unbase.Valid()
    ensures r == Substitute(symtab, unbase.base, payload)
  {
    var ps := Tokens(payload);
    var out := "";
    var i := 0;
    while i < |ps|
      invariant 0 <= i <= |ps|
      invariant SubstitutePieces(symtab, unbase.base, ps[..i]) == Ok(out)
    {
      assert ps[..i + 1] == ps[..i] + [ps[i]];
      SubstitutePiecesAppend(symtab, unbase.base, ps[..i], [ps[i]]);
      SubstitutePiecesAppend(symtab, unbase.base, ps[..i + 1], ps[i + 1..]);
      assert ps[..i + 1] + ps[i + 1..] == ps;
      var image: string;
      match ps[i] {
        case Other(c) =>
          image := [c];
        case Word(w) =>
          var n := unbase.Call(w);
          if n.Err? {
            return Err(n.error);
          }
          if n.value >= |symtab| {
            return Err(SymbolOutOfRange(w, n.value));
          }
          image := if symtab[n.value] != "" then symtab[n.value] else w;
      }
      assert PieceImage(symtab, unbase.base, ps[i]) == Ok(image);
      assert [ps[i]][1..] == [] && image + [] == image;
      assert SubstitutePieces(symtab, unbase.base, [ps[i]]) == Ok(image);
      out := out + image;
      i := i + 1;
    }
    assert ps[..i] == ps;
    return Ok(out);
  }

  // ---------------------------------------------------------------------------
  // unpack

  /**
   * What `unpack` returns, or the failure it raises: no arguments, a count
   * that disagrees with the table, a radix without an alphabet, a failed
   * lookup; otherwise the substituted payload after the string-table pass.
   */
  function UnpackResult(source: string): Result<string, UnpackFailure>
  {
    match FilterArgs(source)
    case Err(e) => Err(e)
    case Ok(args) =>
      if args.count != |args.symtab| then Err(MalformedSymtab)
      else if args.radix > 95 then Err(UnknownEncoding)
      else
        match Substitute(args.symtab, args.radix, args.payload)
        case Err(e) => Err(e)
        case Ok(t) => Ok(ReplacedStrings(t))
  }

  /** Whether `unpack` gets as far as constructing the functor, which writes to the shared alphabet table. */
  predicate BuildsUnbaser(source: string)
  {
    FilterArgs(source).Ok? && FilterArgs(source).value.count == |FilterArgs(source).value.symtab|
  }

  /**
   * `unpack`: the arguments, the count check, the functor (which may add an
   * alphabet to the shared table), the substitution and the string-table pass.
   */
  method Unpack(table: AlphabetTable, source: string) returns (r: Result<string, UnpackFailure>)
    requires table.Valid()
    modifies table
    ensures table.Valid()
    ensures r == UnpackResult(source)
    ensures BuildsUnbaser(source) ==> table.entries == InstallAlphabet(old(table.entries), FilterArgs(source).value.radix)
    ensures !BuildsUnbaser(source) ==> table.entries == old(table.entries)
  {
    var args := FilterArgs(source);
    if args.Err? {
      return Err(args.error);
    }
    var PackerArgs(payload, symtab, radix, count) := args.value;
    if count != |symtab| {
      return Err(MalformedSymtab);
    }
    var unbase := NewUnbaser(table, radix);
    if unbase.None? {
      return Err(UnknownEncoding);
    }
    var substituted := SubstituteWords(unbase.value, symtab, payload);
    if substituted.Err? {
      return Err(substituted.error);
    }
    var stripped := ReplaceStrings(substituted.value);
    return Ok(stripped);
  }

  // ---------------------------------------------------------------------------
  // What unpack raises

  /** A lookup fails only with the functor's error or an index past the table. */
  lemma LookupFailure(symtab: seq<string>, base: nat, word: string)
    requires base <= 95
    ensures Lookup(symtab, base, word).Err? ==>
      Lookup(symtab, base, word).error.InvalidDigit? || Lookup(symtab, base, word).error.SymbolOutOfRange?
  {
  }

  /** `unpack` reports missing arguments exactly when the argument pattern matches nowhere. */
  lemma UnpackNoArgs(source: string)
    ensures UnpackResult(source) == Err(NoPackerArgs) <==> forall m :: !IsMatch(source, m)
  {
    FilterArgsFailsExactly(source);
    var f := FilterArgs(source);
    if f.Ok? && f.value.count == |f.value.symtab| && f.value.radix <= 95 {
      var ps := Tokens(f.value.payload);
      SubstitutePiecesOutcome(f.value.symtab, f.value.radix, ps);
      if SubstitutePieces(f.value.symtab, f.value.radix, ps).Err? {
        var i :| 0 <= i < |ps| && ps[i].Word?
               && Lookup(f.value.symtab, f.value.radix, ps[i].text) == SubstitutePieces(f.value.symtab, f.value.radix, ps);
        LookupFailure(f.value.symtab, f.value.radix, ps[i].text);
      }
    }
  }

  /** The checks `unpack` makes on the four arguments, in order. */
  lemma UnpackOfArgs(source: string, args: PackerArgs)
    requires FilterArgs(source) == Ok(args)
    ensures args.count != |args.symtab| ==> UnpackResult(source) == Err(MalformedSymtab)
    ensures args.count == |args.symtab| && args.radix > 95 ==> UnpackResult(source) == Err(UnknownEncoding)
  {
  }

  /** A packed call whose count is not the number of `|`-separated entries is rejected as malformed. */
  lemma UnpackRejectsCount(payload: string, radix: nat, count: nat, table: string, rest: string)
    requires '\'' !in table && ',' !in table && '\'' !in rest
    requires count != CountChar(table, '|') + 1
    ensures UnpackResult(PackedCall(payload, radix, count, table, rest)) == Err(MalformedSymtab)
  {
    FilterArgsOfPackedCall(payload, radix, count, table, rest);
    SplitOnCharLength(table, '|');
    UnpackOfArgs(PackedCall(payload, radix, count, table, rest), PackerArgs(payload, SplitOn(table, "|"), radix, count));
  }

  /** A packed call with a consistent count but a radix above 95 is rejected as an unknown encoding. */
  lemma UnpackRejectsRadix(payload: string, radix: nat, count: nat, table: string, rest: string)
    requires '\'' !in table && ',' !in table && '\'' !in rest
    requires radix > 95 && count == CountChar(table, '|') + 1
    ensures UnpackResult(PackedCall(payload, radix, count, table, rest)) == Err(UnknownEncoding)
  {
    FilterArgsOfPackedCall(payload, radix, count, table, rest);
    SplitOnCharLength(table, '|');
    UnpackOfArgs(PackedCall(payload, radix, count, table, rest), PackerArgs(payload, SplitOn(table, "|"), radix, count));
  }

  // ---------------------------------------------------------------------------
  // Packing undone

  /** A packer's piece: a word replaced by its code spelled in the base's alphabet, any other character kept. */
  function EncodePiece(p: Piece, code: nat, base: nat): Piece
    requires 2 <= base <= 95
  {
    match p
    case Word(_) => Word(Encode(code, CanonicalAlphabet(base)))
    case Other(c) => Other(c)
  }

  /** A packer's payload, piece by piece, with `codes[i]` the code of the `i`-th piece. */
  function EncodePieces(ps: seq<Piece>, codes: seq<nat>, base: nat): seq<Piece>
    requires |codes| == |ps| && 2 <= base <= 95
  {
    seq(|ps|, i requires 0 <= i < |ps| => EncodePiece(ps[i], codes[i], base))
  }

  /**
   * The symbol table a packer writes for `ps`: the code of every word points
   * at that word, or at an empty entry when the code already spells the word.
   */
  predicate TableFor(ps: seq<Piece>, codes: seq<nat>, base: nat, symtab: seq<string>)
    requires 2 <= base <= 95
  {
    && |codes| == |ps|
    && forall i :: 0 <= i < |ps| && ps[i].Word? ==>
         && codes[i] < |symtab|
         && (|| symtab[codes[i]] == ps[i].text
             || (symtab[codes[i]] == "" && Encode(codes[i], CanonicalAlphabet(base)) == ps[i].text))
  }

  /** Up to base 62 every code is spelled with word characters, so the packed pieces are tokens again. */
  lemma EncodePiecesWellTokenized(ps: seq<Piece>, codes: seq<nat>, base: nat)
    requires |codes| == |ps| && 2 <= base <= 62 && WellTokenized(ps)
    ensures WellTokenized(EncodePieces(ps, codes, base))
  {
    var alphabet := CanonicalAlphabet(base);
    AlphabetCodes();
    assert forall k :: 0 <= k < |alphabet| ==> alphabet[k] == Alphabet62()[k];
    var qs := EncodePieces(ps, codes, base);
    forall i | 0 <= i < |qs| && qs[i].Word?
      ensures IsWordRun(qs[i].text)
    {
      var w := qs[i].text;
      forall k | 0 <= k < |w|
        ensures IsWordChar(w[k])
      {
        var j :| 0 <= j < |alphabet| && alphabet[j] == w[k];
      }
    }
  }

  /** Substituting in packed pieces gives back the text of the original pieces. */
  lemma {:induction false} SubstituteEncoded(symtab: seq<string>, base: nat, ps: seq<Piece>, codes: seq<nat>)
    requires 2 <= base <= 95 && WellTokenized(ps) && TableFor(ps, codes, base, symtab)
    ensures SubstitutePieces(symtab, base, EncodePieces(ps, codes, base)) == Ok(Spell(ps))
    decreases |ps|
  {
    if ps != [] {
      var qs := EncodePieces(ps, codes, base);
      assert qs[1..] == EncodePieces(ps[1..], codes[1..], base);
      WellTokenizedTail(ps);
      assert forall i :: 0 <= i < |ps| - 1 ==> ps[1..][i] == ps[i + 1] && codes[1..][i] == codes[i + 1];
      SubstituteEncoded(symtab, base, ps[1..], codes[1..]);
      if ps[0].Word? {
        LookupEncoded(symtab, base, codes[0]);
      }
      assert PieceImage(symtab, base, qs[0]) == Ok(SpellPiece(ps[0]));
    }
  }

  /** The substitution pass undoes the packer's word coding. */
  lemma SubstitutePacked(symtab: seq<string>, base: nat, ps: seq<Piece>, codes: seq<nat>)
    requires 2 <= base <= 62 && WellTokenized(ps) && TableFor(ps, codes, base, symtab)
    ensures Substitute(symtab, base, Spell(EncodePieces(ps, codes, base))) == Ok(Spell(ps))
  {
    EncodePiecesWellTokenized(ps, codes, base);
    TokensOfSpell(EncodePieces(ps, codes, base));
    SubstituteEncoded(symtab, base, ps, codes);
  }

  /**
   * Unpacking a packed call, the payload coded up to base 62 and the table
   * written out with `|` between entries, gives back the original text after
   * the string-table pass.
   */
  lemma UnpackPackedCall(text: string, codes: seq<nat>, base: nat, symtab: seq<string>, rest: string)
    requires 2 <= base <= 62 && |symtab| >= 1 && '\'' !in rest
    requires forall i :: 0 <= i < |symtab| ==> '|' !in symtab[i] && ',' !in symtab[i] && '\'' !in symtab[i]
    requires TableFor(Tokens(text), codes, base, symtab)
    ensures UnpackResult(PackedCall(Spell(EncodePieces(Tokens(text), codes, base)), base, |symtab|, Join(symtab, "|"), rest))
         == Ok(ReplacedStrings(text))
  {
    var table := Join(symtab, "|");
    var payload := Spell(EncodePieces(Tokens(text), codes, base));
    JoinAvoids(symtab, "|", '\'');
    JoinAvoids(symtab, "|", ',');
    SplitOnJoin(symtab, "|");
    FilterArgsOfPackedCall(payload, base, |symtab|, table, rest);
    TokensSpell(text);
    TokensWellTokenized(text);
    SubstitutePacked(symtab, base, Tokens(text), codes);
  }

  /** Without a string-table declaration in the original text, unpacking returns exactly that text. */
  lemma UnpackPackedPlain(text: string, codes: seq<nat>, base: nat, symtab: seq<string>, rest: string)
    requires 2 <= base <= 62 && |symtab| >= 1 && '\'' !in rest
    requires forall i :: 0 <= i < |symtab| ==> '|' !in symtab[i] && ',' !in symtab[i] && '\'' !in symtab[i]
    requires TableFor(Tokens(text), codes, base, symtab)
    requires forall d :: !DeclAt(text, d)
    ensures UnpackResult(PackedCall(Spell(EncodePieces(Tokens(text), codes, base)), base, |symtab|, Join(symtab, "|"), rest))
         == Ok(text)
  {
    UnpackPackedCall(text, codes, base, symtab, rest);
    ReplacedStringsWithoutDecl(text);
  }
}
