/**
 * `_filterargs`: the search for the packed call's four arguments.  The
 * regular expression
 *   }  \s*  ('  (.*)  ',  \s*  (.*?)  ,  \s*  (\d+)  ,  \s*  '  (.*?)  '.split('|')
 * (with `.` matching newlines too) is stated as a relation on positions,
 * `IsMatch`; `Search` finds the match Python's backtracking engine settles
 * on, and lemmas show it sound, complete and first in the engine's order.
 */
module ArgsFilter {
  import opened Common
  import opened Text
  import opened Unbasing

  /** The literal that ends a match: the quote closing the symbol table, then `.split('|')`. */
  const SplitTail: string := "'.split('|')"

  /**
   * The positions of one way of matching: the brace, the `('` opening the
   * payload, the `',` closing it, the radix field, the digits of the count,
   * the quote opening the symbol table and the start of `SplitTail`.
   */
  datatype ArgsSplit = ArgsSplit(
    brace: nat, open: nat, payloadEnd: nat,
    radixStart: nat, radixEnd: nat,
    countStart: nat, countEnd: nat,
    quote: nat, symtabEnd: nat)

  /** The four captures at their positions, as `_filterargs` returns them. */
  datatype PackerArgs = PackerArgs(payload: string, symtab: seq<string>, radix: nat, count: nat)

  /** The characters `a` and `b` at index `i` and right after it. */
  predicate PairAt(s: string, i: int, a: char, b: char)
  {
    CharAt(s, i, a) && CharAt(s, i + 1, b)
  }

  /** Index `k` holds a whitespace character. */
  predicate SpaceAt(s: string, k: nat)
  {
    k < |s| && IsSpace(s[k])
  }

  /** Index `k` holds a digit. */
  predicate DigitAt(s: string, k: nat)
  {
    k < |s| && IsDigitChar(s[k])
  }

  /** `s[i..j]` is all whitespace. */
  predicate AllSpace(s: string, i: nat, j: nat)
  {
    i <= j <= |s| && forall k: nat :: i <= k < j ==> SpaceAt(s, k)
  }

  /** `s[i..j]` is all digits. */
  predicate AllDigitChars(s: string, i: nat, j: nat)
  {
    i <= j <= |s| && forall k: nat :: i <= k < j ==> DigitAt(s, k)
  }

  /** From the count's first digit on: `\d+ , \s* ' (.*?) '.split('|')` after the comma at `radixEnd`. */
  predicate TailMatch(s: string, radixEnd: nat, countStart: nat, countEnd: nat, quote: nat, symtabEnd: nat)
  {
    && CharAt(s, radixEnd, ',')
    && radixEnd + 1 <= countStart && AllSpace(s, radixEnd + 1, countStart)
    && countStart < countEnd && AllDigitChars(s, countStart, countEnd)
    && CharAt(s, countEnd, ',')
    && countEnd + 1 <= quote && AllSpace(s, countEnd + 1, quote)
    && CharAt(s, quote, '\'')
    && quote + 1 <= symtabEnd && CharsAt(s, symtabEnd, SplitTail)
  }

  /** `m` is a way for the argument pattern to match `s`. */
  predicate IsMatch(s: string, m: ArgsSplit)
  {
    && CharAt(s, m.brace, '}')
    && m.brace + 1 <= m.open && AllSpace(s, m.brace + 1, m.open)
    && PairAt(s, m.open, '(', '\'')
    && m.open + 2 <= m.payloadEnd && PairAt(s, m.payloadEnd, '\'', ',')
    && m.payloadEnd + 2 <= m.radixStart && AllSpace(s, m.payloadEnd + 2, m.radixStart)
    && m.radixStart <= m.radixEnd
    && TailMatch(s, m.radixEnd, m.countStart, m.countEnd, m.quote, m.symtabEnd)
  }

  /**
   * `x` comes no later than `y` in the order the engine tries matches: the
   * leftmost brace, then the longest payload, then the most whitespace
   * before the radix, then the shortest radix, then the shortest symbol
   * table (the other positions are fixed by these).
   */
  predicate TriedFirst(x: ArgsSplit, y: ArgsSplit)
  {
    || x.brace < y.brace
    || (x.brace == y.brace && x.open == y.open &&
         (|| x.payloadEnd > y.payloadEnd
          || (x.payloadEnd == y.payloadEnd &&
               (|| x.radixStart > y.radixStart
                || (x.radixStart == y.radixStart &&
                     (|| x.radixEnd < y.radixEnd
                      || (x.radixEnd == y.radixEnd
                          && x.countStart == y.countStart && x.countEnd == y.countEnd
                          && x.quote == y.quote && x.symtabEnd <= y.symtabEnd)))))))
  }

  // ---------------------------------------------------------------------------
  // The search

  /** The end of the run of whitespace starting at `i`. */
  function SpaceEnd(s: string, i: nat): (j: nat)
    requires i <= |s|
    ensures i <= j <= |s|
    decreases |s| - i
  {
    if i < |s| && IsSpace(s[i]) then SpaceEnd(s, i + 1) else i
  }

  /** The end of the run of digits starting at `i`. */
  function DigitEnd(s: string, i: nat): (j: nat)
    requires i <= |s|
    ensures i <= j <= |s|
    decreases |s| - i
  {
    if i < |s| && IsDigitChar(s[i]) then DigitEnd(s, i + 1) else i
  }

  /** `\s*` takes the whole run of whitespace and stops at the first other character. */
  lemma {:induction false} SpaceEndSound(s: string, i: nat)
    requires i <= |s|
    ensures AllSpace(s, i, SpaceEnd(s, i))
    ensures SpaceEnd(s, i) < |s| ==> !IsSpace(s[SpaceEnd(s, i)])
    decreases |s| - i
  {
    if i < |s| && IsSpace(s[i]) {
      SpaceEndSound(s, i + 1);
    }
  }

  /** `\d+` takes the whole run of digits and stops at the first other character. */
  lemma {:induction false} DigitEndSound(s: string, i: nat)
    requires i <= |s|
    ensures AllDigitChars(s, i, DigitEnd(s, i))
    ensures DigitEnd(s, i) < |s| ==> !IsDigitChar(s[DigitEnd(s, i)])
    decreases |s| - i
  {
    if i < |s| && IsDigitChar(s[i]) {
      DigitEndSound(s, i + 1);
    }
  }

  /** A non-space character at or after `i` lies at or after the end of the whitespace run at `i`. */
  lemma {:induction false} SpaceEndBefore(s: string, i: nat, k: nat)
    requires i <= k < |s| && !IsSpace(s[k])
    ensures SpaceEnd(s, i) <= k
    decreases k - i
  {
    if i < k && IsSpace(s[i]) {
      SpaceEndBefore(s, i + 1, k);
    }
  }

  /** A whitespace run ends at the first non-space character. */
  lemma {:induction false} SpaceEndAt(s: string, i: nat, k: nat)
    requires AllSpace(s, i, k) && k < |s| && !IsSpace(s[k])
    ensures SpaceEnd(s, i) == k
    decreases k - i
  {
    if i < k {
      assert SpaceAt(s, i);
      SpaceEndAt(s, i + 1, k);
    }
  }

  lemma {:induction false} DigitEndAt(s: string, i: nat, k: nat)
    requires AllDigitChars(s, i, k) && k < |s| && !IsDigitChar(s[k])
    ensures DigitEnd(s, i) == k
    decreases k - i
  {
    if i < k {
      assert DigitAt(s, i);
      DigitEndAt(s, i + 1, k);
    }
  }

  /** The rest of the match after the comma ending the radix: count and symbol table. */
  datatype Tail = Tail(countStart: nat, countEnd: nat, quote: nat, symtabEnd: nat)

  /** Matches the part after the comma at `radixEnd`, taking the shortest symbol table. */
  function TailAfter(s: string, radixEnd: nat): Option<Tail>
    requires radixEnd < |s|
  {
    var countStart := SpaceEnd(s, radixEnd + 1);
    var countEnd := DigitEnd(s, countStart);
    if countStart < countEnd && CharAt(s, countEnd, ',') then
      var quote := SpaceEnd(s, countEnd + 1);
      if CharAt(s, quote, '\'') then
        match SymtabFrom(s, quote + 1)
        case Some(symtabEnd) => Some(Tail(countStart, countEnd, quote, symtabEnd))
        case None => None
      else None
    else None
  }

  /** What `TailAfter` finds after a comma matches the tail. */
  lemma TailAfterSound(s: string, radixEnd: nat)
    requires radixEnd < |s| && CharAt(s, radixEnd, ',') && TailAfter(s, radixEnd).Some?
    ensures var t := TailAfter(s, radixEnd).value;
            TailMatch(s, radixEnd, t.countStart, t.countEnd, t.quote, t.symtabEnd)
  {
    var countStart := SpaceEnd(s, radixEnd + 1);
    var countEnd := DigitEnd(s, countStart);
    var quote := SpaceEnd(s, countEnd + 1);
    SpaceEndSound(s, radixEnd + 1);
    DigitEndSound(s, countStart);
    SpaceEndSound(s, countEnd + 1);
    SymtabFromSound(s, quote + 1);
  }

  /** Any way of matching the tail agrees with `TailAfter` on the count and the quote, and ends no earlier. */
  lemma TailAfterFirst(s: string, radixEnd: nat, countStart: nat, countEnd: nat, quote: nat, symtabEnd: nat)
    requires TailMatch(s, radixEnd, countStart, countEnd, quote, symtabEnd)
    ensures TailAfter(s, radixEnd).Some?
    ensures var t := TailAfter(s, radixEnd).value;
            t.countStart == countStart && t.countEnd == countEnd && t.quote == quote && t.symtabEnd <= symtabEnd
  {
    assert DigitAt(s, countStart);
    SpaceEndAt(s, radixEnd + 1, countStart);
    assert s[countEnd] == ',';
    DigitEndAt(s, countStart, countEnd);
    assert s[quote] == '\'';
    SpaceEndAt(s, countEnd + 1, quote);
    SymtabFromLeast(s, quote + 1, symtabEnd);
    var e := SymtabFrom(s, quote + 1).value;
    assert SpaceEnd(s, radixEnd + 1) == countStart && DigitEnd(s, countStart) == countEnd;
    assert CharAt(s, countEnd, ',') && SpaceEnd(s, countEnd + 1) == quote && CharAt(s, quote, '\'');
    assert SymtabFrom(s, quote + 1) == Some(e);
    assert TailAfter(s, radixEnd) == Some(Tail(countStart, countEnd, quote, e));
  }

  /** The shortest symbol table after `k`: the first position at or after `k` where `SplitTail` occurs. */
  function SymtabFrom(s: string, k: nat): Option<nat>
    requires k <= |s|
    decreases |s| - k
  {
    if k == |s| then None
    else if CharsAt(s, k, SplitTail) then Some(k)
    else SymtabFrom(s, k + 1)
  }

  lemma {:induction false} SymtabFromSound(s: string, k: nat)
    requires k <= |s|
    ensures SymtabFrom(s, k).Some? ==> k <= SymtabFrom(s, k).value < |s| && CharsAt(s, SymtabFrom(s, k).value, SplitTail)
    decreases |s| - k
  {
    if k < |s| && !CharsAt(s, k, SplitTail) {
      SymtabFromSound(s, k + 1);
    }
  }

  lemma {:induction false} SymtabFromLeast(s: string, k: nat, e: nat)
    requires k <= e < |s| && CharsAt(s, e, SplitTail)
    ensures SymtabFrom(s, k).Some? && SymtabFrom(s, k).value <= e
    decreases e - k
  {
    if k < e && !CharsAt(s, k, SplitTail) {
      SymtabFromLeast(s, k + 1, e);
    }
  }

  /** A radix may end at `e`: a comma, with the tail matching after it. */
  predicate RadixOk(s: string, e: nat)
  {
    CharAt(s, e, ',') && TailAfter(s, e).Some?
  }

  /** The shortest radix: the first comma at or after `k` with a tail behind it. */
  function RadixFrom(s: string, k: nat): Option<nat>
    requires k <= |s|
    decreases |s| - k
  {
    if k == |s| then None
    else if RadixOk(s, k) then Some(k)
    else RadixFrom(s, k + 1)
  }

  lemma {:induction false} RadixFromSound(s: string, k: nat)
    requires k <= |s|
    ensures RadixFrom(s, k).Some? ==> k <= RadixFrom(s, k).value < |s| && RadixOk(s, RadixFrom(s, k).value)
    decreases |s| - k
  {
    if k < |s| && !RadixOk(s, k) {
      RadixFromSound(s, k + 1);
    }
  }

  lemma {:induction false} RadixFromLeast(s: string, k: nat, e: nat)
    requires k <= e < |s| && RadixOk(s, e)
    ensures RadixFrom(s, k).Some? && RadixFrom(s, k).value <= e
    decreases e - k
  {
    if k < e && !RadixOk(s, k) {
      RadixFromLeast(s, k + 1, e);
    }
  }

  /** A payload may end at `e`: `',` follows it and a radix and tail can be matched after it. */
  predicate PayloadEndOk(s: string, e: nat)
  {
    PairAt(s, e, '\'', ',') && RadixFrom(s, SpaceEnd(s, e + 2)).Some?
  }

  /** The longest payload: the last admissible payload end in `lo..hi`. */
  function PayloadDown(s: string, lo: nat, hi: int): Option<nat>
    decreases hi + 1 - lo
  {
    if hi < lo then None
    else if PayloadEndOk(s, hi) then Some(hi)
    else PayloadDown(s, lo, hi - 1)
  }

  lemma {:induction false} PayloadDownSound(s: string, lo: nat, hi: int)
    ensures PayloadDown(s, lo, hi).Some? ==> lo <= PayloadDown(s, lo, hi).value <= hi && PayloadEndOk(s, PayloadDown(s, lo, hi).value)
    decreases hi + 1 - lo
  {
    if lo <= hi && !PayloadEndOk(s, hi) {
      PayloadDownSound(s, lo, hi - 1);
    }
  }

  lemma {:induction false} PayloadDownGreatest(s: string, lo: nat, hi: int, e: nat)
    requires lo <= e <= hi && PayloadEndOk(s, e)
    ensures PayloadDown(s, lo, hi).Some? && PayloadDown(s, lo, hi).value >= e
    decreases hi - e
  {
    if e < hi && !PayloadEndOk(s, hi) {
      PayloadDownGreatest(s, lo, hi - 1, e);
    }
  }

  /** A match may start at brace `b`. */
  predicate BraceOk(s: string, b: nat)
  {
    && CharAt(s, b, '}')
    && PairAt(s, SpaceEnd(s, b + 1), '(', '\'')
    && PayloadDown(s, SpaceEnd(s, b + 1) + 2, |s|).Some?
  }

  /** The leftmost brace at or after `k` from which a match starts. */
  function BraceFrom(s: string, k: nat): Option<nat>
    requires k <= |s|
    decreases |s| - k
  {
    if k == |s| then None
    else if BraceOk(s, k) then Some(k)
    else BraceFrom(s, k + 1)
  }

  lemma {:induction false} BraceFromSound(s: string, k: nat)
    requires k <= |s|
    ensures BraceFrom(s, k).Some? ==> k <= BraceFrom(s, k).value < |s| && BraceOk(s, BraceFrom(s, k).value)
    decreases |s| - k
  {
    if k < |s| && !BraceOk(s, k) {
      BraceFromSound(s, k + 1);
    }
  }

  lemma {:induction false} BraceFromLeast(s: string, k: nat, e: nat)
    requires k <= e < |s| && BraceOk(s, e)
    ensures BraceFrom(s, k).Some? && BraceFrom(s, k).value <= e
    decreases e - k
  {
    if k < e && !BraceOk(s, k) {
      BraceFromLeast(s, k + 1, e);
    }
  }

  /** The match that starts at brace `b`: the longest payload, then the shortest radix and symbol table. */
  function MatchAt(s: string, b: nat): (m: ArgsSplit)
    requires b < |s| && BraceOk(s, b)
    ensures m.brace == b && m.open == SpaceEnd(s, b + 1)
    ensures PayloadDown(s, m.open + 2, |s|) == Some(m.payloadEnd)
    ensures m.payloadEnd + 2 <= |s| && m.radixStart == SpaceEnd(s, m.payloadEnd + 2)
    ensures RadixFrom(s, m.radixStart) == Some(m.radixEnd)
    ensures m.radixEnd < |s| && TailAfter(s, m.radixEnd) == Some(Tail(m.countStart, m.countEnd, m.quote, m.symtabEnd))
  {
    var open := SpaceEnd(s, b + 1);
    SpaceEndSound(s, b + 1);
    PayloadDownSound(s, open + 2, |s|);
    var payloadEnd := PayloadDown(s, open + 2, |s|).value;
    var radixStart := SpaceEnd(s, payloadEnd + 2);
    SpaceEndSound(s, payloadEnd + 2);
    RadixFromSound(s, radixStart);
    var radixEnd := RadixFrom(s, radixStart).value;
    TailAfterSound(s, radixEnd);
    var t := TailAfter(s, radixEnd).value;
    ArgsSplit(b, open, payloadEnd, radixStart, radixEnd, t.countStart, t.countEnd, t.quote, t.symtabEnd)
  }

  /** The positions `MatchAt` settles on are a match. */
  lemma MatchAtSound(s: string, b: nat)
    requires b < |s| && BraceOk(s, b)
    ensures IsMatch(s, MatchAt(s, b))
  {
    var m := MatchAt(s, b);
    SpaceEndSound(s, b + 1);
    PayloadDownSound(s, m.open + 2, |s|);
    SpaceEndSound(s, m.payloadEnd + 2);
    RadixFromSound(s, m.radixStart);
    TailAfterSound(s, m.radixEnd);
  }

  /** `re.search(argsregex, source, re.DOTALL)`: the positions of the match, or `None`. */
  function Search(s: string): Option<ArgsSplit>
  {
    BraceFromSound(s, 0);
    match BraceFrom(s, 0)
    case None => None
    case Some(b) => Some(MatchAt(s, b))
  }

  /** Whatever `Search` returns is a match. */
  lemma SearchSound(s: string)
    ensures Search(s).Some? ==> IsMatch(s, Search(s).value)
  {
    BraceFromSound(s, 0);
    if Search(s).Some? {
      MatchAtSound(s, BraceFrom(s, 0).value);
    }
  }

  /** After the payload end of a match, `RadixFrom` finds a radix end no later than the match's. */
  lemma RadixFirst(s: string, m: ArgsSplit)
    requires IsMatch(s, m)
    ensures m.radixStart <= SpaceEnd(s, m.payloadEnd + 2)
    ensures RadixFrom(s, SpaceEnd(s, m.payloadEnd + 2)).Some?
    ensures RadixFrom(s, SpaceEnd(s, m.payloadEnd + 2)).value <= m.radixEnd
    ensures PayloadEndOk(s, m.payloadEnd)
  {
    if SpaceEnd(s, m.payloadEnd + 2) < m.radixStart {
      assert SpaceAt(s, SpaceEnd(s, m.payloadEnd + 2));
    }
    TailAfterFirst(s, m.radixEnd, m.countStart, m.countEnd, m.quote, m.symtabEnd);
    assert s[m.radixEnd] == ',';
    SpaceEndBefore(s, m.payloadEnd + 2, m.radixEnd);
    SpaceEndSound(s, m.payloadEnd + 2);
    if m.radixStart < m.radixEnd && !IsSpace(s[m.radixStart]) {
      SpaceEndBefore(s, m.payloadEnd + 2, m.radixStart);
    }
    RadixFromLeast(s, SpaceEnd(s, m.payloadEnd + 2), m.radixEnd);
  }

  /** The brace of a match admits a match, with a payload at least as long. */
  lemma PayloadFirst(s: string, m: ArgsSplit)
    requires IsMatch(s, m)
    ensures SpaceEnd(s, m.brace + 1) == m.open
    ensures BraceOk(s, m.brace)
    ensures PayloadDown(s, m.open + 2, |s|).value >= m.payloadEnd
  {
    assert s[m.open] == '(';
    SpaceEndAt(s, m.brace + 1, m.open);
    RadixFirst(s, m);
    PayloadDownGreatest(s, m.open + 2, |s|, m.payloadEnd);
  }

  /** From the brace of a match, `MatchAt` settles on a match tried no later. */
  lemma MatchAtFirst(s: string, m: ArgsSplit)
    requires IsMatch(s, m)
    ensures BraceOk(s, m.brace)
    ensures TriedFirst(MatchAt(s, m.brace), m)
  {
    PayloadFirst(s, m);
    var r := MatchAt(s, m.brace);
    if r.payloadEnd == m.payloadEnd {
      RadixFirst(s, m);
      if r.radixEnd == m.radixEnd {
        TailAfterFirst(s, m.radixEnd, m.countStart, m.countEnd, m.quote, m.symtabEnd);
      }
    }
  }

  /** If the pattern can match at all, `Search` finds a match, and the one the engine tries first. */
  lemma SearchFirst(s: string, m: ArgsSplit)
    requires IsMatch(s, m)
    ensures Search(s).Some?
    ensures TriedFirst(Search(s).value, m)
  {
    MatchAtFirst(s, m);
    BraceFromLeast(s, 0, m.brace);
    BraceFromSound(s, 0);
  }

  /** A nonempty run of digits is a digit string. */
  lemma DigitsSlice(s: string, i: nat, j: nat)
    requires AllDigitChars(s, i, j) && i < j
    ensures IsDigitString(s[i..j])
  {
    forall k | 0 <= k < j - i
      ensures IsDigitChar(s[i..j][k])
    {
      assert DigitAt(s, i + k);
    }
  }

  /** The four groups of match `m`, the radix read as 36 unless its field is all digits. */
  function Captures(s: string, m: ArgsSplit): PackerArgs
    requires IsMatch(s, m)
  {
    DigitsSlice(s, m.countStart, m.countEnd);
    var radixField := s[m.radixStart..m.radixEnd];
    var radix := if IsDigitString(radixField) then ParseDecimal(radixField) else 36;
    PackerArgs(s[m.open + 2..m.payloadEnd], SplitOn(s[m.quote + 1..m.symtabEnd], "|"), radix, ParseDecimal(s[m.countStart..m.countEnd]))
  }

  /** `_filterargs`: the groups of the match the engine finds first. */
  function FilterArgs(s: string): Result<PackerArgs, UnpackFailure>
  {
    SearchSound(s);
    match Search(s)
    case None => Err(NoPackerArgs)
    case Some(m) => Ok(Captures(s, m))
  }

  // ---------------------------------------------------------------------------
  // The layout a packer emits

  /**
   * The argument list laid out without extra whitespace:
   * `}('payload',radix,count,'table'.split('|')` followed by `rest`.
   */
  function ArgsLayout(payload: string, radixField: string, countField: string, table: string, rest: string): string
  {
    "}" + ("('" + (payload + ("'," + (radixField + ("," + (countField + (",'" + (table + (SplitTail + rest)))))))))
  }

  /** The arguments as a packer writes them, with the radix and the count in decimal. */
  function PackedCall(payload: string, radix: nat, count: nat, table: string, rest: string): string
  {
    ArgsLayout(payload, NatToString(radix), NatToString(count), table, rest)
  }

  /** No quote is directly followed by a comma. */
  predicate NoQuoteComma(x: string)
  {
    forall k :: 0 <= k && k + 1 < |x| ==> !(x[k] == '\'' && x[k + 1] == ',')
  }

  lemma NoQuoteCommaConcat(x: string, y: string)
    requires NoQuoteComma(x) && NoQuoteComma(y)
    requires |x| > 0 && |y| > 0 ==> !(x[|x| - 1] == '\'' && y[0] == ',')
    ensures NoQuoteComma(x + y)
  {
    var xy := x + y;
    forall k | 0 <= k && k + 1 < |xy|
      ensures !(xy[k] == '\'' && xy[k + 1] == ',')
    {
      if k + 1 < |x| {
        assert xy[k] == x[k] && xy[k + 1] == x[k + 1];
      } else if k + 1 == |x| {
        assert xy[k] == x[|x| - 1] && xy[k + 1] == y[0];
      } else {
        assert xy[k] == y[k - |x|] && xy[k + 1] == y[k + 1 - |x|];
      }
    }
  }

  /** Where `s` continues as `x + y` from `i`, `x` occurs at `i` and `y` continues from `i + |x|`. */
  lemma Continues(s: string, i: nat, x: string, y: string)
    requires i <= |s| && s[i..] == x + y
    ensures OccursAt(s, i, x) && s[i..i + |x|] == x
    ensures s[i + |x|..] == y
  {
    assert s[i..][..|x|] == x;
    assert s[i..][|x|..] == y;
  }

  /** The head of the layout: `}('` and the payload. */
  predicate LaidHead(s: string, payload: string)
  {
    CharAt(s, 0, '}') && PairAt(s, 1, '(', '\'') && 3 + |payload| <= |s| && s[3..3 + |payload|] == payload
  }

  /** From the payload's closing `',` at `pe`: the radix field, the count field and the table's opening quote. */
  predicate LaidArgs(s: string, pe: nat, R: string, C: string)
  {
    var re := pe + 2 + |R|;
    var ce := re + 1 + |C|;
    && ce + 2 <= |s|
    && PairAt(s, pe, '\'', ',')
    && s[pe + 2..re] == R
    && CharAt(s, re, ',')
    && s[re + 1..ce] == C
    && CharAt(s, ce, ',') && CharAt(s, ce + 1, '\'')
  }

  /** After the table's opening quote at `q`: the table and the closing literal. */
  predicate LaidTable(s: string, q: nat, table: string)
  {
    q + 1 + |table| <= |s| && s[q + 1..q + 1 + |table|] == table && CharsAt(s, q + 1 + |table|, SplitTail)
  }

  /** Where each piece of the layout lies in `s`. */
  predicate LaidOut(s: string, payload: string, R: string, C: string, table: string)
  {
    var pe := 3 + |payload|;
    LaidHead(s, payload) && LaidArgs(s, pe, R, C) && LaidTable(s, pe + 2 + |R| + 1 + |C| + 1, table)
  }

  /** `T` starts with `table` and the closing literal. */
  predicate TableIn(T: string, table: string)
  {
    |table| <= |T| && T[..|table|] == table && CharsAt(T, |table|, SplitTail)
  }

  /** The rest of the layout after the table's opening quote starts with the table and the closing literal. */
  lemma LayoutTableIn(table: string, rest: string)
    ensures TableIn(table + (SplitTail + rest), table)
  {
    var T := table + (SplitTail + rest);
    assert T[..|table|] == table;
    assert T[|table|..|table| + |SplitTail|] == SplitTail;
    CharsAtOccurs(T, |table|, SplitTail);
  }

  /** Where `s` continues as `T` after the quote at `q`, the table of `T` lies where `LaidTable` says. */
  lemma TableShift(s: string, q: nat, T: string, table: string)
    requires q + 1 <= |s| && s[q + 1..] == T && TableIn(T, table)
    ensures LaidTable(s, q, table)
  {
    assert s[q + 1..q + 1 + |table|] == T[..|table|];
    var e := q + 1 + |table|;
    forall k: nat | k < |SplitTail|
      ensures SameChar(s, e, SplitTail, k)
    {
      assert SameChar(T, |table|, SplitTail, k);
      assert T[|table| + k] == s[e + k];
    }
  }

  /** The layout lays its pieces out where `LaidOut` says; `T` is what follows the table's opening quote. */
  lemma LayoutLaidOut(s: string, payload: string, R: string, C: string, table: string, T: string)
    requires LaidHead(s, payload)
    requires s[3 + |payload|..] == "'," + (R + ("," + (C + (",'" + T))))
    requires TableIn(T, table)
    ensures LaidOut(s, payload, R, C, table)
  {
    var pe := 3 + |payload|;
    var q := pe + 2 + |R| + 1 + |C| + 1;
    LayoutArgPieces(s, pe, R, C, T);
    Continues(s, q, "'", T);
    TableShift(s, q, T, table);
  }

  /** In the layout, no `',` follows the payload's closing one. */
  lemma LayoutNoLaterPayloadEnd(s: string, payload: string, R: string, C: string, table: string, rest: string)
    requires s == ArgsLayout(payload, R, C, table, rest)
    requires '\'' !in R && IsDigitString(C)
    requires '\'' !in table && ',' !in table && '\'' !in rest
    ensures forall e :: 3 + |payload| < e ==> !PairAt(s, e, '\'', ',')
  {
    LayoutPieces(s, payload, R, C, table + (SplitTail + rest));
    LayoutArgPieces(s, 3 + |payload|, R, C, table + (SplitTail + rest));
    NoLaterPayloadEnd(s, 3 + |payload|, R, C, table, rest);
  }

  /** The layout matches at its own positions. */
  lemma LayoutAt(s: string, payload: string, R: string, C: string, table: string, rest: string)
    requires LaidOut(s, payload, R, C, table)
    requires IsDigitString(C)
    ensures IsMatch(s, LayoutSplit(payload, R, C, table))
  {
    var pe := 3 + |payload|;
    var re := pe + 2 + |R|;
    var ce := re + 1 + |C|;
    SpaceFree(s, 1, 1);
    SpaceFree(s, pe + 2, pe + 2);
    SpaceFree(s, re + 1, re + 1);
    SpaceFree(s, ce + 1, ce + 1);
    assert AllDigitChars(s, re + 1, ce) by {
      forall k: nat | re + 1 <= k < ce
        ensures DigitAt(s, k)
      {
        assert s[re + 1..ce][k - re - 1] == s[k];
      }
    }
  }

  /** Where the head of the layout lies, up to the payload's closing quote; `T` follows the table's opening quote. */
  lemma LayoutPieces(s: string, payload: string, R: string, C: string, T: string)
    requires s == "}" + ("('" + (payload + ("'," + (R + ("," + (C + (",'" + T)))))))
    ensures LaidHead(s, payload)
    ensures s[3 + |payload|..] == "'," + (R + ("," + (C + (",'" + T))))
  {
    var s0 := "'," + (R + ("," + (C + (",'" + T))));
    assert s[0..] == s;
    Continues(s, 0, "}", "('" + (payload + s0));
    Continues(s, 1, "('", payload + s0);
    Continues(s, 3, payload, s0);
  }

  /** Where the radix and count fields lie, from the payload's closing quote on; `T` is the rest of the layout. */
  lemma LayoutArgPieces(s: string, pe: nat, R: string, C: string, T: string)
    requires pe <= |s| && s[pe..] == "'," + (R + ("," + (C + (",'" + T))))
    ensures LaidArgs(s, pe, R, C)
    ensures s[pe + 1..] == "," + (R + ("," + (C + (",'" + T))))
    ensures s[pe + 2 + |R| + 1 + |C| + 1..] == "'" + T
  {
    var re := pe + 2 + |R|;
    RadixPieces(s, pe, R, "," + (C + (",'" + T)));
    CountPieces(s, re, C, T);
  }

  /** The payload's closing `',` at `pe`, then the radix field `R`, then `more`. */
  lemma RadixPieces(s: string, pe: nat, R: string, more: string)
    requires pe <= |s| && s[pe..] == "'," + (R + more)
    ensures PairAt(s, pe, '\'', ',')
    ensures s[pe + 1..] == "," + (R + more)
    ensures s[pe + 2..pe + 2 + |R|] == R && s[pe + 2 + |R|..] == more
  {
    Continues(s, pe, "',", R + more);
    assert "'," + (R + more) == "'" + ("," + (R + more));
    Continues(s, pe, "'", "," + (R + more));
    Continues(s, pe + 2, R, more);
  }

  /** The comma at `re`, then the count field `C`, then `,'` and `T`. */
  lemma CountPieces(s: string, re: nat, C: string, T: string)
    requires re <= |s| && s[re..] == "," + (C + (",'" + T))
    ensures CharAt(s, re, ',') && s[re + 1..re + 1 + |C|] == C
    ensures CharAt(s, re + 1 + |C|, ',') && CharAt(s, re + 1 + |C| + 1, '\'')
    ensures s[re + 1 + |C| + 1..] == "'" + T
  {
    var ce := re + 1 + |C|;
    Continues(s, re, ",", C + (",'" + T));
    Continues(s, re + 1, C, ",'" + T);
    assert ",'" + T == "," + ("'" + T);
    Continues(s, ce, ",", "'" + T);
    Continues(s, ce + 1, "'", T);
  }

  lemma SpaceFree(s: string, i: nat, j: nat)
    requires i == j <= |s|
    ensures AllSpace(s, i, j)
  {
  }

  /** A suffix without a quote-comma pair holds no occurrence of `',`. */
  lemma NoQuoteCommaFrom(s: string, i: nat)
    requires i <= |s| && NoQuoteComma(s[i..])
    ensures forall e :: i <= e ==> !PairAt(s, e, '\'', ',')
  {
    forall e | i <= e
      ensures !PairAt(s, e, '\'', ',')
    {
      if e + 2 <= |s| {
        assert s[i..][e - i] == s[e] && s[i..][e - i + 1] == s[e + 1];
        assert s[e..e + 2][0] == s[e] && s[e..e + 2][1] == s[e + 1];
      }
    }
  }

  /** After the payload's closing `',` the layout has no other `',`. */
  lemma NoLaterPayloadEnd(s: string, pe: nat, R: string, C: string, table: string, rest: string)
    requires pe + 1 <= |s| && s[pe + 1..] == "," + (R + ("," + (C + (",'" + (table + (SplitTail + rest))))))
    requires '\'' !in R && IsDigitString(C)
    requires '\'' !in table && ',' !in table && '\'' !in rest
    ensures forall e :: pe < e ==> !PairAt(s, e, '\'', ',')
  {
    var s6 := SplitTail + rest;
    var s5 := table + s6;
    var s4 := ",'" + s5;
    var s3 := C + s4;
    var s2 := "," + s3;
    var s1 := R + s2;
    assert NoQuoteComma(rest) && NoQuoteComma(table) && NoQuoteComma(R) && NoQuoteComma(C);
    NoQuoteCommaConcat(SplitTail, rest);
    NoQuoteCommaConcat(table, s6);
    if table != [] {
      assert table[0] in table;
    }
    NoQuoteCommaConcat(",'", s5);
    NoQuoteCommaConcat(C, s4);
    NoQuoteCommaConcat(",", s3);
    NoQuoteCommaConcat(R, s2);
    NoQuoteCommaConcat(",", s1);
    NoQuoteCommaFrom(s, pe + 1);
  }

  /** The positions of the layout's own match. */
  function LayoutSplit(payload: string, R: string, C: string, table: string): ArgsSplit
  {
    var pe := 3 + |payload|;
    var re := pe + 2 + |R|;
    var ce := re + 1 + |C|;
    ArgsSplit(0, 1, pe, pe + 2, re, re + 1, ce, ce + 1, ce + 2 + |table|)
  }

  /** The fields `_filterargs` reports for the layout. */
  function LayoutArgs(payload: string, R: string, C: string, table: string): PackerArgs
    requires IsDigitString(C)
  {
    PackerArgs(payload, SplitOn(table, "|"), if IsDigitString(R) then ParseDecimal(R) else 36, ParseDecimal(C))
  }

  /**
   * `_filterargs` reads the layout back: the payload and the table as
   * written, the count's value, and the radix field's value when it is all
   * digits or 36 otherwise (an empty field included).
   */
  lemma {:induction false} FilterArgsOfLayout(payload: string, radixField: string, countField: string, table: string, rest: string)
    requires '\'' !in radixField && ',' !in radixField && (|radixField| > 0 ==> !IsSpace(radixField[0]))
    requires IsDigitString(countField)
    requires '\'' !in table && ',' !in table && '\'' !in rest
    ensures FilterArgs(ArgsLayout(payload, radixField, countField, table, rest))
         == Ok(PackerArgs(payload, SplitOn(table, "|"),
                          if IsDigitString(radixField) then ParseDecimal(radixField) else 36,
                          ParseDecimal(countField)))
  {
    var s := ArgsLayout(payload, radixField, countField, table, rest);
    var m := LayoutSplit(payload, radixField, countField, table);
    var T := table + (SplitTail + rest);
    LayoutPieces(s, payload, radixField, countField, T);
    LayoutTableIn(table, rest);
    LayoutLaidOut(s, payload, radixField, countField, table, T);
    LayoutNoLaterPayloadEnd(s, payload, radixField, countField, table, rest);
    LayoutUnique(s, payload, radixField, countField, table, rest);
    LayoutCaptures(s, payload, radixField, countField, table, rest);
    FilterArgsOfOnlyMatch(s, m);
    assert Captures(s, m) == LayoutArgs(payload, radixField, countField, table);
  }

  /** The layout's own match, and what rules every other choice out. */
  lemma LayoutUnique(s: string, payload: string, R: string, C: string, table: string, rest: string)
    requires LaidOut(s, payload, R, C, table)
    requires ',' !in R && (|R| > 0 ==> !IsSpace(R[0]))
    requires IsDigitString(C) && '\'' !in table
    requires forall e :: 3 + |payload| < e ==> !PairAt(s, e, '\'', ',')
    ensures IsMatch(s, LayoutSplit(payload, R, C, table)) && OnlyChoice(s, LayoutSplit(payload, R, C, table))
  {
    var pe := 3 + |payload|;
    var re := pe + 2 + |R|;
    var ce := re + 1 + |C|;
    LayoutAt(s, payload, R, C, table, rest);
    NoCharIn(s, pe + 2, re, R, ',');
    if |R| > 0 {
      assert s[pe + 2..re][0] == s[pe + 2];
    }
    NoCharIn(s, ce + 2, ce + 2 + |table|, table, '\'');
  }

  /** The groups of the layout's own match are its fields. */
  lemma LayoutCaptures(s: string, payload: string, R: string, C: string, table: string, rest: string)
    requires LaidOut(s, payload, R, C, table)
    requires IsDigitString(C)
    ensures IsMatch(s, LayoutSplit(payload, R, C, table))
    ensures Captures(s, LayoutSplit(payload, R, C, table)) == LayoutArgs(payload, R, C, table)
  {
    LayoutAt(s, payload, R, C, table, rest);
    CapturesAt(s, LayoutSplit(payload, R, C, table), payload, R, C, table);
  }

  /**
   * Facts about `s` that leave the engine no choice but `m` among the matches
   * it tries no later: no `',` after the payload end, no whitespace before
   * the radix, no comma inside the radix field and no quote inside the table.
   */
  ghost predicate OnlyChoice(s: string, m: ArgsSplit)
  {
    && m.brace == 0 && m.radixStart == m.payloadEnd + 2 && m.quote + 1 == m.countEnd + 2
    && (forall e :: m.payloadEnd < e ==> !PairAt(s, e, '\'', ','))
    && m.radixStart < |s| && !IsSpace(s[m.radixStart])
    && (forall k :: m.radixStart <= k < m.radixEnd && k < |s| ==> s[k] != ',')
    && (forall k :: m.quote + 1 <= k < m.symtabEnd && k < |s| ==> s[k] != '\'')
  }

  /** Where only `m` is left, `_filterargs` returns its groups. */
  lemma FilterArgsOfOnlyMatch(s: string, m: ArgsSplit)
    requires IsMatch(s, m) && OnlyChoice(s, m)
    ensures FilterArgs(s) == Ok(Captures(s, m))
  {
    SearchFirst(s, m);
    SearchSound(s);
    FirstIsLayout(s, m, Search(s).value);
  }

  /** A character absent from a slice is at none of its positions. */
  lemma NoCharIn(s: string, i: nat, j: nat, x: string, c: char)
    requires i <= j <= |s| && s[i..j] == x && c !in x
    ensures forall k :: i <= k < j ==> s[k] != c
  {
    forall k | i <= k < j
      ensures s[k] != c
    {
      assert x[k - i] == s[k];
    }
  }

  lemma CapturesAt(s: string, m: ArgsSplit, payload: string, radixField: string, countField: string, table: string)
    requires IsMatch(s, m)
    requires s[m.open + 2..m.payloadEnd] == payload && s[m.radixStart..m.radixEnd] == radixField
    requires s[m.countStart..m.countEnd] == countField && s[m.quote + 1..m.symtabEnd] == table
    requires IsDigitString(countField)
    ensures Captures(s, m) == LayoutArgs(payload, radixField, countField, table)
  {
    DigitsSlice(s, m.countStart, m.countEnd);
  }

  /**
   * A match tried no later than the layout's own match is that match, since
   * no later `',`, no leading whitespace, no comma in the radix field and no
   * quote in the table leave the engine no other choice.
   */
  lemma FirstIsLayout(s: string, m: ArgsSplit, r: ArgsSplit)
    requires IsMatch(s, m) && IsMatch(s, r) && TriedFirst(r, m) && OnlyChoice(s, m)
    ensures r == m
  {
    assert r.brace == 0 && r.open == m.open && r.payloadEnd >= m.payloadEnd;
    assert r.payloadEnd == m.payloadEnd;
    assert !SpaceAt(s, m.radixStart);
    assert r.radixStart == m.radixStart;
    assert r.radixEnd == m.radixEnd;
    assert SameChar(s, r.symtabEnd, SplitTail, 0);
  }

  /** In particular every packed call is read back exactly, the table split at its bars. */
  lemma FilterArgsOfPackedCall(payload: string, radix: nat, count: nat, table: string, rest: string)
    requires '\'' !in table && ',' !in table && '\'' !in rest
    ensures FilterArgs(PackedCall(payload, radix, count, table, rest))
         == Ok(PackerArgs(payload, SplitOn(table, "|"), radix, count))
  {
    var R := NatToString(radix);
    forall c | c in R
      ensures c != '\'' && c != ','
    {
      var k :| 0 <= k < |R| && R[k] == c;
    }
    FilterArgsOfLayout(payload, R, NatToString(count), table, rest);
    ParseDecimalOfNatToString(radix);
    ParseDecimalOfNatToString(count);
  }

  /** `_filterargs` fails exactly when the pattern cannot match anywhere. */
  lemma FilterArgsFailsExactly(s: string)
    ensures FilterArgs(s).Ok? <==> exists m :: IsMatch(s, m)
    ensures FilterArgs(s) == Err(NoPackerArgs) <==> forall m :: !IsMatch(s, m)
  {
    SearchSound(s);
    forall m | IsMatch(s, m)
      ensures FilterArgs(s).Ok?
    {
      SearchFirst(s, m);
    }
    if FilterArgs(s).Ok? {
      assert IsMatch(s, Search(s).value);
    }
  }
}
