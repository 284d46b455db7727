/**
 * The `Unbaser` functor of the P.A.C.K.E.R. unpacker: it turns a word written
 * in base 2..95 back into the natural number it stands for.  Bases 2..36 go
 * through Python 2's `int(word, base)`; every other base goes through a
 * digit dictionary built from a shared, class-level alphabet table that the
 * constructor extends on demand.
 */
module Unbasing {
  import opened Common

  /**
   * Everything that can make `unpack` fail.  The first three are the
   * `UnpackingError` messages; the last two are the Python exceptions that
   * escape `unpack` unconverted (a `KeyError` or `ValueError` for a word that
   * is not a number in the radix, an `IndexError` for a symbol past the end of
   * the symbol table).
   */
  datatype UnpackFailure =
    | NoPackerArgs                            // the argument pattern is not found
    | MalformedSymtab                         // 'Malformed p.a.c.k.e.r. symtab.'
    | UnknownEncoding                         // 'Unknown p.a.c.k.e.r. encoding.'
    | InvalidDigit(word: string)              // the word has a character that is no digit of the base
    | SymbolOutOfRange(word: string, index: nat)

  /** `ALPHABET[62]`: the ten digits, then the lower-case, then the upper-case letters. */
  function Alphabet62(): string
  {
    seq(62, i =>
      if 0 <= i < 10 then ('0' as int + i) as char
      else if 10 <= i < 36 then ('a' as int + i - 10) as char
      else if 36 <= i < 62 then ('A' as int + i - 36) as char
      else '0')
  }

  /** `ALPHABET[95]`: the printable ASCII characters, space (32) to tilde (126), in code order. */
  function Alphabet95(): string
  {
    seq(95, i => if 0 <= i < 95 then (32 + i) as char else ' ')
  }

  lemma AlphabetCodes()
    ensures |Alphabet62()| == 62 && |Alphabet95()| == 95
    ensures forall i :: 0 <= i < 10 ==> Alphabet62()[i] as int == '0' as int + i
    ensures forall i :: 10 <= i < 36 ==> Alphabet62()[i] as int == 'a' as int + i - 10
    ensures forall i :: 36 <= i < 62 ==> Alphabet62()[i] as int == 'A' as int + i - 36
    ensures forall i :: 0 <= i < 95 ==> Alphabet95()[i] as int == 32 + i
  {
  }

  predicate Distinct(s: string)
  {
    forall i, j :: 0 <= i < j < |s| ==> s[i] != s[j]
  }

  lemma AlphabetsDistinct()
    ensures |Alphabet62()| == 62 && Distinct(Alphabet62())
    ensures |Alphabet95()| == 95 && Distinct(Alphabet95())
  {
    AlphabetCodes();
    forall i, j | 0 <= i < j < 62
      ensures Alphabet62()[i] != Alphabet62()[j]
    {
      var ci, cj := Alphabet62()[i] as int, Alphabet62()[j] as int;
      if i < 10 {
        assert ci <= '9' as int;
        assert j < 10 ==> ci < cj;
        assert j >= 10 ==> cj >= 'A' as int;
      } else if i < 36 {
        assert 'a' as int <= ci;
        assert j < 36 ==> ci < cj;
        assert j >= 36 ==> cj <= 'Z' as int;
      } else {
        assert ci < cj;
      }
    }
    forall i, j | 0 <= i < j < 95
      ensures Alphabet95()[i] != Alphabet95()[j]
    {
      assert Alphabet95()[i] as int < Alphabet95()[j] as int;
    }
  }

  /**
   * The alphabet `ALPHABET[base]` holds once a constructor has run for
   * `base`: the first `base` characters of the 62-character alphabet up to
   * base 62, of the 95-character one above.
   */
  function CanonicalAlphabet(base: nat): (a: string)
    requires base <= 95
    ensures |a| == base && Distinct(a)
    ensures base == 62 ==> a == Alphabet62()
    ensures base == 95 ==> a == Alphabet95()
  {
    AlphabetsDistinct();
    if base <= 62 then Alphabet62()[..base] else Alphabet95()[..base]
  }

  /** A table all of whose entries are the canonical alphabet of their base, with 62 and 95 present. */
  ghost predicate CanonicalTable(entries: map<nat, string>)
  {
    && 62 in entries && 95 in entries
    && forall b :: b in entries ==> b <= 95 && entries[b] == CanonicalAlphabet(b)
  }

  /** Python's `s[0:n]`, which stops at the end of a shorter string. */
  function Prefix(s: string, n: nat): string
  {
    if n <= |s| then s[..n] else s
  }

  /**
   * The writes `__init__` makes to `ALPHABET`: bases 2..36 leave it alone,
   * other bases below 62 get a prefix of the 62-character alphabet and bases
   * strictly between 62 and 95 a prefix of the 95-character one.
   */
  function InstallAlphabet(entries: map<nat, string>, base: nat): map<nat, string>
    requires 62 in entries && 95 in entries
  {
    if 2 <= base <= 36 then entries
    else if base < 62 then entries[base := Prefix(entries[62], base)]
    else if 62 < base < 95 then entries[base := Prefix(entries[95], base)]
    else entries
  }

  /**
   * Installing an alphabet keeps the table canonical, touches no other base,
   * and, for a base outside 2..36, leaves an entry for `base` exactly when
   * `base` is at most 95 (62 and 95 are there from the start).
   */
  lemma InstallKeepsTableCanonical(entries: map<nat, string>, base: nat)
    requires CanonicalTable(entries)
    ensures CanonicalTable(InstallAlphabet(entries, base))
    ensures forall b :: b != base ==>
              (b in InstallAlphabet(entries, base) <==> b in entries)
              && (b in entries ==> InstallAlphabet(entries, base)[b] == entries[b])
    ensures !(2 <= base <= 36) ==> (base in InstallAlphabet(entries, base) <==> base <= 95)
  {
    var e := InstallAlphabet(entries, base);
    forall b | b in e
      ensures b <= 95 && e[b] == CanonicalAlphabet(b)
    {
      if b != base {
        assert b in entries;
      } else if base < 62 {
        assert e[b] == Alphabet62()[..base];
      } else if 62 < base < 95 {
        assert e[b] == Alphabet95()[..base];
      } else {
        assert b in entries;
      }
    }
  }

  /** The class attribute `Unbaser.ALPHABET`, shared by every instance and grown by the constructor. */
  class AlphabetTable {
    var entries: map<nat, string>

    ghost predicate Valid()
      reads this
    {
      CanonicalTable(entries)
    }

    constructor ()
      ensures Valid()
      ensures entries == map[62 := Alphabet62(), 95 := Alphabet95()]
    {
      entries := map[62 := Alphabet62(), 95 := Alphabet95()];
    }
  }

  /**
   * `dict((cipher, index) for index, cipher in enumerate(alphabet))`: each
   * character maps to a position where it occurs (the last one, since later
   * pairs overwrite earlier ones).
   */
  function IndexMap(alphabet: string): (m: map<char, nat>)
    ensures forall c :: c in m <==> c in alphabet
    ensures forall c :: c in m ==> m[c] < |alphabet| && alphabet[m[c]] == c
    decreases |alphabet|
  {
    if alphabet == [] then map[]
    else IndexMap(alphabet[..|alphabet| - 1])[alphabet[|alphabet| - 1] := |alphabet| - 1]
  }

  /** `d` decodes `alphabet` when it sends the character at each position to that position. */
  ghost predicate Decodes(d: map<char, nat>, alphabet: string)
  {
    forall i :: 0 <= i < |alphabet| ==> alphabet[i] in d && d[alphabet[i]] == i
  }

  /** Over an alphabet without repeats, the enumeration dictionary is its exact inverse. */
  lemma IndexMapDecodes(alphabet: string)
    requires Distinct(alphabet)
    ensures Decodes(IndexMap(alphabet), alphabet)
  {
    var m := IndexMap(alphabet);
    forall i | 0 <= i < |alphabet|
      ensures alphabet[i] in m && m[alphabet[i]] == i
    {
      assert alphabet[i] in alphabet;
    }
  }

  function Pow(b: nat, e: nat): (r: nat)
    ensures b >= 1 ==> r >= 1
  {
    if e == 0 then 1 else b * Pow(b, e - 1)
  }

  lemma {:induction false} PowMonotone(b: nat, e1: nat, e2: nat)
    requires b >= 1 && e1 <= e2
    ensures Pow(b, e1) <= Pow(b, e2)
    decreases e2
  {
    if e1 < e2 {
      PowMonotone(b, e1, e2 - 1);
      var p := Pow(b, e2 - 1);
      var q: nat := b - 1;
      assert Pow(b, e2) == b * p == p + q * p;
    }
  }

  predicate AllDigits(d: map<char, nat>, word: string)
  {
    forall k :: 0 <= k < |word| ==> word[k] in d
  }

  /**
   * The number a word denotes: each character's digit weighted by the base
   * raised to its distance from the right end, as `_dictunbaser` sums it.
   */
  function Value(d: map<char, nat>, base: nat, word: string): nat
    requires AllDigits(d, word)
    decreases |word|
  {
    if word == [] then 0
    else d[word[0]] * Pow(base, |word| - 1) + Value(d, base, word[1..])
  }

  /** Reading one more digit on the right multiplies by the base and adds it (Horner's rule). */
  lemma {:induction false} ValueAppend(d: map<char, nat>, base: nat, word: string, c: char)
    requires AllDigits(d, word) && c in d
    ensures AllDigits(d, word + [c])
    ensures Value(d, base, word + [c]) == Value(d, base, word) * base + d[c]
    decreases |word|
  {
    if word == [] {
      assert word + [c] == [c];
    } else {
      assert (word + [c])[1..] == word[1..] + [c];
      ValueAppend(d, base, word[1..], c);
      var a, p, v := d[word[0]], Pow(base, |word| - 1), Value(d, base, word[1..]);
      assert Pow(base, |word|) == base * p;
      assert Value(d, base, word + [c]) == a * Pow(base, |word|) + Value(d, base, word[1..] + [c]);
      Horner(a, p, v, base, d[c]);
    }
  }

  lemma Horner(a: int, p: int, v: int, b: int, c: int)
    ensures a * (b * p) + (v * b + c) == (a * p + v) * b + c
  {
  }

  /** With every digit below the base, a word of n digits denotes a number below base^n. */
  lemma {:induction false} ValueBound(d: map<char, nat>, base: nat, word: string)
    requires AllDigits(d, word)
    requires forall c :: c in d ==> d[c] < base
    ensures Value(d, base, word) < Pow(base, |word|)
    decreases |word|
  {
    if word != [] {
      ValueBound(d, base, word[1..]);
      var p := Pow(base, |word| - 1);
      assert d[word[0]] <= base - 1;
      assert d[word[0]] * p <= (base - 1) * p;
    }
  }

  /** Leading zero digits do not change the number. */
  lemma {:induction false} LeadingZeros(d: map<char, nat>, base: nat, zeros: string, word: string)
    requires forall k :: 0 <= k < |zeros| ==> zeros[k] in d && d[zeros[k]] == 0
    requires AllDigits(d, word)
    ensures AllDigits(d, zeros + word)
    ensures Value(d, base, zeros + word) == Value(d, base, word)
    decreases |zeros|
  {
    if zeros == [] {
      assert zeros + word == word;
    } else {
      LeadingZeros(d, base, zeros[1..], word);
      assert (zeros + word)[1..] == zeros[1..] + word;
      assert (zeros + word)[0] == zeros[0];
      assert Value(d, base, zeros + word)
        == d[zeros[0]] * Pow(base, |zeros + word| - 1) + Value(d, base, zeros[1..] + word);
    }
  }

  /**
   * What `_dictunbaser` returns for a dictionary `d`, or the `KeyError` it
   * raises when some character of the word is not in it.
   */
  function Decode(d: map<char, nat>, base: nat, word: string): Result<nat, UnpackFailure>
  {
    if AllDigits(d, word) then Ok(Value(d, base, word)) else Err(InvalidDigit(word))
  }

  /** The digit values `int()` gives alphanumeric characters: 0..9, then a/A = 10 .. z/Z = 35. */
  function AlnumValue(c: char): nat
  {
    if '0' <= c <= '9' then c as nat - '0' as nat
    else if 'a' <= c <= 'z' then c as nat - 'a' as nat + 10
    else if 'A' <= c <= 'Z' then c as nat - 'A' as nat + 10
    else 36
  }

  /** The digits `int(word, base)` accepts, letters in either case. */
  function BuiltinDigits(base: nat): map<char, nat>
  {
    map c | c in Alphabet62() && AlnumValue(c) < base :: AlnumValue(c)
  }

  lemma BuiltinDigitsMeaning(base: nat)
    requires 2 <= base <= 36
    ensures forall c :: c in BuiltinDigits(base) <==>
              ((('0' <= c <= '9') || ('a' <= c <= 'z') || ('A' <= c <= 'Z')) && AlnumValue(c) < base)
    ensures forall c :: c in BuiltinDigits(base) ==> BuiltinDigits(base)[c] < base
    ensures forall c :: 'a' <= c <= 'z' && c in BuiltinDigits(base) ==>
              var u := (c as int - 32) as char; u in BuiltinDigits(base) && BuiltinDigits(base)[u] == BuiltinDigits(base)[c]
    ensures Decodes(BuiltinDigits(base), CanonicalAlphabet(base))
  {
    forall c | ('0' <= c <= '9') || ('a' <= c <= 'z') || ('A' <= c <= 'Z')
      ensures c in Alphabet62()
    {
      if '0' <= c <= '9' {
        assert Alphabet62()[c as int - '0' as int] == c;
      } else if 'a' <= c <= 'z' {
        assert Alphabet62()[10 + c as int - 'a' as int] == c;
      } else {
        assert Alphabet62()[36 + c as int - 'A' as int] == c;
      }
    }
    forall c | 'a' <= c <= 'z' && c in BuiltinDigits(base)
      ensures (c as int - 32) as char in BuiltinDigits(base)
    {
      var u := (c as int - 32) as char;
      assert 'A' <= u <= 'Z';
    }
    BuiltinDigitsDecode(base);
  }

  lemma BuiltinDigitsDecode(base: nat)
    requires 2 <= base <= 36
    ensures Decodes(BuiltinDigits(base), CanonicalAlphabet(base))
  {
    var a := CanonicalAlphabet(base);
    forall i | 0 <= i < base
      ensures a[i] in BuiltinDigits(base) && BuiltinDigits(base)[a[i]] == i
    {
      assert a[i] == Alphabet62()[i];
      assert AlnumValue(a[i]) == i;
    }
  }

  /** `int(word, base)` for 2 <= base <= 36, read as a plain case-insensitive numeral. */
  function IntBuiltin(base: nat, word: string): Result<nat, UnpackFailure>
  {
    if word == [] then Err(InvalidDigit(word)) else Decode(BuiltinDigits(base), base, word)
  }

  /** The dictionary an `Unbaser` for a base outside 2..36 and at most 95 decodes with. */
  function DictionaryFor(base: nat): map<char, nat>
    requires base <= 95
  {
    IndexMap(CanonicalAlphabet(base))
  }

  /** What calling the functor built for `base` returns for `word`. */
  function Unbase(base: nat, word: string): Result<nat, UnpackFailure>
    requires base <= 95
  {
    if 2 <= base <= 36 then IntBuiltin(base, word) else Decode(DictionaryFor(base), base, word)
  }

  /**
   * For a dictionary base the call succeeds exactly on the words over the
   * base's alphabet, and then reads each character as its position in it.
   */
  lemma {:induction false} DictionaryUnbaseMeaning(base: nat, word: string)
    requires base <= 95 && !(2 <= base <= 36)
    ensures Unbase(base, word).Ok? <==> forall k :: 0 <= k < |word| ==> word[k] in CanonicalAlphabet(base)
    ensures Decodes(DictionaryFor(base), CanonicalAlphabet(base))
    ensures forall c :: c in DictionaryFor(base) ==> DictionaryFor(base)[c] < base
  {
    IndexMapDecodes(CanonicalAlphabet(base));
  }

  /** Whatever the base, a successful call on a word of n characters yields less than base^n. */
  lemma UnbaseBound(base: nat, word: string)
    requires base <= 95
    ensures Unbase(base, word).Ok? ==> Unbase(base, word).value < Pow(base, |word|)
  {
    if 2 <= base <= 36 {
      BuiltinDigitsMeaning(base);
      if AllDigits(BuiltinDigits(base), word) {
        ValueBound(BuiltinDigits(base), base, word);
      }
    } else if AllDigits(DictionaryFor(base), word) {
      ValueBound(DictionaryFor(base), base, word);
    }
  }

  /**
   * The zero digit, the first character of the base's alphabet (a space in
   * base 95), may be prepended without changing the value; a dictionary base
   * reads the empty word as 0, while `int()` rejects it.
   */
  lemma {:induction false} UnbaseLeadingZero(base: nat, word: string)
    requires 1 <= base <= 95
    ensures !(2 <= base <= 36) ==> Unbase(base, []) == Ok(0)
    ensures 2 <= base <= 36 ==> Unbase(base, []).Err?
    ensures !(2 <= base <= 36) || word != [] ==>
      Unbase(base, [CanonicalAlphabet(base)[0]] + word).Ok? == Unbase(base, word).Ok?
    ensures Unbase(base, word).Ok? ==> Unbase(base, [CanonicalAlphabet(base)[0]] + word) == Unbase(base, word)
  {
    var alphabet := CanonicalAlphabet(base);
    var z := [alphabet[0]];
    var d := if 2 <= base <= 36 then BuiltinDigits(base) else DictionaryFor(base);
    if 2 <= base <= 36 {
      BuiltinDigitsMeaning(base);
    } else {
      DictionaryUnbaseMeaning(base, word);
    }
    assert alphabet[0] in d && d[alphabet[0]] == 0;
    if AllDigits(d, word) {
      LeadingZeros(d, base, z, word);
    } else {
      var k :| 0 <= k < |word| && word[k] !in d;
      assert (z + word)[k + 1] == word[k];
    }
  }

  /**
   * The canonical spelling of `n` over `alphabet`, whose length is the base:
   * most significant digit first, no leading zeros.
   */
  function Encode(n: nat, alphabet: string): (w: string)
    requires |alphabet| >= 2
    ensures |w| >= 1
    ensures forall k :: 0 <= k < |w| ==> w[k] in alphabet
    decreases n
  {
    if n < |alphabet| then [alphabet[n]]
    else Encode(n / |alphabet|, alphabet) + [alphabet[n % |alphabet|]]
  }

  lemma {:induction false} DecodeEncode(n: nat, alphabet: string, d: map<char, nat>)
    requires |alphabet| >= 2
    requires Decodes(d, alphabet)
    ensures AllDigits(d, Encode(n, alphabet))
    ensures Value(d, |alphabet|, Encode(n, alphabet)) == n
    decreases n
  {
    var base := |alphabet|;
    if n < base {
      SingleDigit(d, base, alphabet[n]);
    } else {
      var q, r := EncodeSplit(n, alphabet);
      DecodeEncode(q, alphabet, d);
      EncodeStep(d, base, Encode(q, alphabet), alphabet[r], q, r);
    }
  }

  /** A word of one digit denotes that digit. */
  lemma SingleDigit(d: map<char, nat>, base: nat, c: char)
    requires c in d
    ensures AllDigits(d, [c]) && Value(d, base, [c]) == d[c]
  {
    assert Value(d, base, [c]) == d[c] * Pow(base, 0) + Value(d, base, []);
  }

  /** The last digit of a spelling of at least two digits, and the spelling of the rest. */
  lemma EncodeSplit(n: nat, alphabet: string) returns (q: nat, r: nat)
    requires |alphabet| >= 2 && n >= |alphabet|
    ensures q < n && r < |alphabet| && q * |alphabet| + r == n
    ensures Encode(n, alphabet) == Encode(q, alphabet) + [alphabet[r]]
  {
    q, r := n / |alphabet|, n % |alphabet|;
  }

  lemma EncodeStep(d: map<char, nat>, base: nat, prefix: string, c: char, q: nat, r: nat)
    requires AllDigits(d, prefix) && c in d && d[c] == r && Value(d, base, prefix) == q
    ensures AllDigits(d, prefix + [c])
    ensures Value(d, base, prefix + [c]) == q * base + r
  {
    ValueAppend(d, base, prefix, c);
  }

  /** Every number survives being spelled in a base 2..95 and read back by the functor for that base. */
  lemma UnbaseEncode(n: nat, base: nat)
    requires 2 <= base <= 95
    ensures Unbase(base, Encode(n, CanonicalAlphabet(base))) == Ok(n)
  {
    var alphabet := CanonicalAlphabet(base);
    var w := Encode(n, alphabet);
    if 2 <= base <= 36 {
      BuiltinDigitsMeaning(base);
      DecodeEncode(n, alphabet, BuiltinDigits(base));
    } else {
      DictionaryUnbaseMeaning(base, w);
      DecodeEncode(n, alphabet, DictionaryFor(base));
    }
  }

  /** A constructed functor: `base`, and either `int()` or the digit dictionary it decodes with. */
  class Unbaser {
    const base: nat
    /** Whether `self.unbase` is `int(string, base)` rather than `_dictunbaser`. */
    const builtin: bool
    const dictionary: map<char, nat>

    ghost predicate Valid()
    {
      && base <= 95
      && (builtin <==> 2 <= base <= 36)
      && (!builtin ==> dictionary == DictionaryFor(base))
    }

    constructor (base: nat, builtin: bool, dictionary: map<char, nat>)
      ensures this.base == base && this.builtin == builtin && this.dictionary == dictionary
    {
      this.base := base;
      this.builtin := builtin;
      this.dictionary := dictionary;
    }

    /** `__call__`: decodes `word` with whichever conversion the constructor chose. */
    method Call(word: string) returns (r: Result<nat, UnpackFailure>)
      requires Valid()
      ensures r == Unbase(base, word)
    {
      if builtin {
        r := IntBuiltin(base, word);
      } else {
        r := DictUnbase(word);
      }
    }

    /** `_dictunbaser`: sums base^index times the digit, walking the word from its right end. */
    method DictUnbase(word: string) returns (r: Result<nat, UnpackFailure>)
      ensures r == Decode(dictionary, base, word)
    {
      var ret := 0;
      var index := 0;
      while index < |word|
        invariant 0 <= index <= |word|
        invariant AllDigits(dictionary, word[|word| - index..])
        invariant ret == Value(dictionary, base, word[|word| - index..])
      {
        var cipher := word[|word| - 1 - index];
        if cipher !in dictionary {
          return Err(InvalidDigit(word));
        }
        assert word[|word| - 1 - index..][1..] == word[|word| - index..];
        ret := ret + Pow(base, index) * dictionary[cipher];
        index := index + 1;
      }
      assert word[|word| - index..] == word;
      return Ok(ret);
    }
  }

  /**
   * `Unbaser.__init__`: a functor for `base`, after installing its alphabet
   * in the shared table; `None` stands for the `TypeError` raised when the
   * table has no alphabet for the base.
   */
  method NewUnbaser(table: AlphabetTable, base: nat) returns (r: Option<Unbaser>)
    requires table.Valid()
    modifies table
    ensures table.Valid()
    ensures table.entries == InstallAlphabet(old(table.entries), base)
    ensures r.None? <==> base > 95
    ensures r.Some? ==> fresh(r.value) && r.value.Valid() && r.value.base == base
  {
    InstallKeepsTableCanonical(table.entries, base);
    if 2 <= base <= 36 {
      var u := new Unbaser(base, true, map[]);
      return Some(u);
    }
    if base < 62 {
      table.entries := table.entries[base := Prefix(table.entries[62], base)];
    } else if 62 < base < 95 {
      table.entries := table.entries[base := Prefix(table.entries[95], base)];
    }
    if base !in table.entries {
      return None;
    }
    var u := new Unbaser(base, false, IndexMap(table.entries[base]));
    return Some(u);
  }
}
