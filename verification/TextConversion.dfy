/** Printing and parsing of big integers in any radix, a word's worth of numerals at a time. */
module TextConversion {
  import opened Arith
  import opened Digits
  import opened BigUInts
  import opened WordOps
  import opened Wrappers
  import opened Addition
  import opened Multiplication
  import opened Division
  import MachineInts
  import ModInvTheory

  predicate Radix(radix: nat) { 2 <= radix <= 36 }

  // ----- numerals -----

  function Numeral(d: nat, uppercase: bool): char
    requires d < 36
  {
    if d < 10 then ('0' as int + d) as char
    else if uppercase then ('A' as int + d - 10) as char else ('a' as int + d - 10) as char
  }

  /** The value of a numeral of either case; 36 for other characters. */
  function NumeralValue(c: char): (d: nat)
    ensures d <= 36
  {
    if '0' <= c <= '9' then c as int - '0' as int
    else if 'a' <= c <= 'z' then c as int - 'a' as int + 10
    else if 'A' <= c <= 'Z' then c as int - 'A' as int + 10
    else 36
  }

  predicate AllNumerals(s: string, radix: nat)
  {
    forall i :: 0 <= i < |s| ==> NumeralValue(s[i]) < radix
  }

  /** Ten digits and 26 letters of either case are numerals, and no other characters. */
  lemma NumeralTable(c: char)
    ensures '0' <= c <= '9' ==> NumeralValue(c) == c as int - 48
    ensures 'a' <= c <= 'z' ==> NumeralValue(c) == c as int - 87
    ensures 'A' <= c <= 'Z' ==> NumeralValue(c) == c as int - 55
    ensures NumeralValue(c) < 36 <==> '0' <= c <= '9' || 'a' <= c <= 'z' || 'A' <= c <= 'Z'
  {
  }

  lemma NumeralsMeans(s: string, radix: nat)
    ensures AllNumerals(s, radix) <==> forall i :: 0 <= i < |s| ==> NumeralValue(s[i]) < radix
  {
  }

  /** The number that a text denotes by position. */
  function TextValue(s: string, radix: nat): nat
  {
    if s == [] then 0 else TextValue(s[..|s| - 1], radix) * radix + NumeralValue(s[|s| - 1])
  }

  /** One more numeral. */
  lemma TextSnoc(s: string, c: char, radix: nat)
    ensures TextValue(s + [c], radix) == TextValue(s, radix) * radix + NumeralValue(c)
  {
    assert (s + [c])[..|s|] == s;
  }

  lemma {:induction false} TextJoin(s: string, t: string, radix: nat)
    ensures TextValue(s + t, radix) == TextValue(s, radix) * Pow(radix, |t|) + TextValue(t, radix)
  {
    if t == [] {
      assert s + t == s;
    } else {
      var u, c := t[..|t| - 1], t[|t| - 1];
      assert t == u + [c] && s + t == s + u + [c];
      TextJoin(s, u, radix);
      PowStep(radix, |u|);
      hide TextValue, NumeralValue, Pow;
      TextSnoc(s + u, c, radix);
      TextSnoc(u, c, radix);
      ShiftNumeral(TextValue(s, radix), Pow(radix, |u|), TextValue(u, radix), radix, NumeralValue(c));
    }
  }

  lemma ShiftNumeral(a: int, p: int, b: int, radix: int, d: int)
    ensures (a * p + b) * radix + d == a * (radix * p) + (b * radix + d)
  {
  }

  lemma {:induction false} TextBound(s: string, radix: nat)
    requires AllNumerals(s, radix)
    ensures TextValue(s, radix) < Pow(radix, |s|)
  {
    if s != [] {
      var t := s[..|s| - 1];
      TextBound(t, radix);
      PowStep(radix, |t|);
      hide NumeralValue, Pow;
      NumeralBound(TextValue(t, radix), Pow(radix, |t|), radix, NumeralValue(s[|s| - 1]));
    }
  }

  lemma NumeralBound(v: int, p: int, radix: int, d: int)
    requires v < p && d < radix && radix > 0
    ensures v * radix + d < radix * p
  {
    MulMono(v, p - 1, radix);
  }

  // ----- one word -----

  /** The numerals of a word, without leading zeros. */
  function WordText(w: nat, radix: nat, uppercase: bool): (s: string)
    requires Radix(radix)
    ensures |s| >= 1
  {
    if w < radix then [Numeral(w, uppercase)]
    else SmallQuotient(w, radix); WordText(w / radix, radix, uppercase) + [Numeral(w % radix, uppercase)]
  }

  lemma NumeralMeans(d: nat, uppercase: bool)
    requires d < 36
    ensures NumeralValue(Numeral(d, uppercase)) == d
    ensures 'a' <= Numeral(d, uppercase) <= 'z' ==> !uppercase
    ensures 'A' <= Numeral(d, uppercase) <= 'Z' ==> uppercase
    ensures Numeral(d, uppercase) == '0' ==> d == 0
  {
  }

  /** The last numeral of a word's text. */
  lemma WordTextStep(w: nat, radix: nat, uppercase: bool) returns (q: nat, d: nat)
    requires Radix(radix) && w >= radix
    ensures w == q * radix + d && d < radix && q < w
    ensures WordText(w, radix, uppercase) == WordText(q, radix, uppercase) + [Numeral(d, uppercase)]
  {
    q, d := w / radix, w % radix;
    SmallQuotient(w, radix);
  }

  lemma WordTextLast(w: nat, radix: nat, uppercase: bool)
    requires Radix(radix) && w < radix
    ensures WordText(w, radix, uppercase) == [Numeral(w, uppercase)]
  {
  }

  lemma {:induction false} WordTextMeans(w: nat, radix: nat, uppercase: bool)
    requires Radix(radix)
    ensures AllNumerals(WordText(w, radix, uppercase), radix)
    ensures TextValue(WordText(w, radix, uppercase), radix) == w
  {
    hide Numeral, NumeralValue, TextValue, WordText;
    if w >= radix {
      var q, d := WordTextStep(w, radix, uppercase);
      WordTextMeans(q, radix, uppercase);
      NumeralMeans(d, uppercase);
      TextSnoc(WordText(q, radix, uppercase), Numeral(d, uppercase), radix);
    } else {
      WordTextLast(w, radix, uppercase);
      NumeralMeans(w, uppercase);
      TextSnoc([], Numeral(w, uppercase), radix);
      TextEmpty(radix);
      assert [] + [Numeral(w, uppercase)] == [Numeral(w, uppercase)];
    }
  }

  /** Only the asked case of letters, and no zero in front. */
  lemma {:induction false} WordTextForm(w: nat, radix: nat, uppercase: bool)
    requires Radix(radix)
    ensures OfCase(WordText(w, radix, uppercase), uppercase)
    ensures w > 0 ==> WordText(w, radix, uppercase)[0] != '0'
  {
    hide Numeral, WordText;
    if w >= radix {
      var q, d := WordTextStep(w, radix, uppercase);
      WordTextForm(q, radix, uppercase);
      NumeralMeans(d, uppercase);
    } else {
      WordTextLast(w, radix, uppercase);
      NumeralMeans(w, uppercase);
    }
  }

  /** No letter of the other case. */
  predicate OfCase(s: string, uppercase: bool)
  {
    forall i :: 0 <= i < |s| ==> !(if uppercase then 'a' <= s[i] <= 'z' else 'A' <= s[i] <= 'Z')
  }

  lemma TextEmpty(radix: nat)
    ensures TextValue([], radix) == 0
  {
  }

  lemma {:induction false} WordTextLength(w: nat, radix: nat, uppercase: bool, n: nat)
    requires Radix(radix) && n >= 1 && w < Pow(radix, n)
    ensures |WordText(w, radix, uppercase)| <= n
  {
    hide Pow, Numeral, WordText;
    PowOne(radix);
    if w >= radix {
      var q, d := WordTextStep(w, radix, uppercase);
      PowSplit(radix, n);
      QuotientBelow(q, radix, d, Pow(radix, n - 1));
      WordTextLength(q, radix, uppercase, n - 1);
    } else {
      WordTextLast(w, radix, uppercase);
    }
  }

  lemma PowSplit(b: nat, n: nat)
    requires n >= 1
    ensures Pow(b, n) == b * Pow(b, n - 1)
  {
  }

  lemma PowOne(b: nat)
    ensures Pow(b, 1) == b && Pow(b, 0) == 1
  {
    assert Pow(b, 1) == b * Pow(b, 0);
  }

  lemma QuotientBelow(q: nat, radix: nat, d: nat, p: nat)
    requires q * radix + d < radix * p
    ensures q < p
  {
    if q >= p { MulMono(p, q, radix); }
  }

  /** Swift's conversion of a text to a word: a sign, then numerals, whose number must fit. */
  function WordOfText(s: string, radix: nat): Option<Word>
  {
    var signed := s != [] && (s[0] == '+' || s[0] == '-');
    var digits := if signed then s[1..] else s;
    if digits == [] || !AllNumerals(digits, radix) then None
    else
      var v := TextValue(digits, radix);
      if v >= BASE || (s[0] == '-' && v != 0) then None else Some(v)
  }

  lemma NumeralsParse(s: string, radix: nat)
    requires Radix(radix) && s != [] && AllNumerals(s, radix)
    ensures WordOfText(s, radix) == if TextValue(s, radix) < BASE then Some(TextValue(s, radix)) else None
  {
    assert NumeralValue(s[0]) < radix;
  }

  /** In full: an empty text, a sign alone, another character and a number beyond a word are
      refused, and so is a minus in front of anything but 0. */
  lemma WordOfTextMeans(s: string, radix: nat)
    ensures s == [] ==> WordOfText(s, radix).None?
    ensures s != [] && s[0] != '+' && s[0] != '-' ==>
              WordOfText(s, radix) == (if AllNumerals(s, radix) && TextValue(s, radix) < BASE then Some(TextValue(s, radix)) else None)
    ensures s != [] && s[0] == '+' ==>
              WordOfText(s, radix) == (if s[1..] != [] && AllNumerals(s[1..], radix) && TextValue(s[1..], radix) < BASE
                                       then Some(TextValue(s[1..], radix)) else None)
    ensures s != [] && s[0] == '-' ==>
              WordOfText(s, radix) == (if s[1..] != [] && AllNumerals(s[1..], radix) && TextValue(s[1..], radix) == 0
                                       then Some(0) else None)
  {
    hide TextValue, AllNumerals;
  }

  // ----- how many numerals make a word -----

  function CharsFrom(radix: nat, n: nat): nat
    requires Radix(radix) && Pow(radix, n) < BASE
    decreases BASE - Pow(radix, n)
  {
    PowPositive(radix, n);
    MulMono(2, radix, Pow(radix, n));
    if Pow(radix, n + 1) < BASE then CharsFrom(radix, n + 1)
    else if Pow(radix, n + 1) % BASE == 0 then n + 1 else n
  }

  /** The number of numerals that are handled together. */
  function Chars(radix: nat): nat
    requires Radix(radix)
  {
    CharsFrom(radix, 0)
  }

  /** What the pieces of a number are digits to the base of. */
  function Unit(radix: nat): nat
    requires Radix(radix)
  {
    Min(BASE, Pow(radix, Chars(radix)))
  }

  lemma {:induction false} CharsFromMeans(radix: nat, n: nat)
    requires Radix(radix) && Pow(radix, n) < BASE
    ensures var c := CharsFrom(radix, n);
      || (Pow(radix, c) < BASE <= Pow(radix, c + 1) && Pow(radix, c + 1) % BASE != 0)
      || (c > 0 && Pow(radix, c - 1) < BASE <= Pow(radix, c) && Pow(radix, c) % BASE == 0)
    decreases BASE - Pow(radix, n)
  {
    PowPositive(radix, n);
    MulMono(2, radix, Pow(radix, n));
    if Pow(radix, n + 1) < BASE { CharsFromMeans(radix, n + 1); }
  }

  lemma CharsMeans(radix: nat)
    requires Radix(radix)
    ensures var c := Chars(radix);
      || (Pow(radix, c) < BASE <= Pow(radix, c + 1) && Pow(radix, c + 1) % BASE != 0)
      || (c > 0 && Pow(radix, c - 1) < BASE <= Pow(radix, c) && Pow(radix, c) % BASE == 0)
    ensures Chars(radix) >= 1 && radix <= Unit(radix) <= Pow(radix, Chars(radix))
  {
    CharsFromMeans(radix, 0);
    PowOne(radix);
    var c := Chars(radix);
    assert c >= 1;
    PowMono(radix, 1, c);
  }

  /** charsPerWord: multiply until the product overflows; an overflow to exactly 0 still counts. */
  method CharsPerWord(radix: nat) returns (chars: nat, power: Word)
    requires Radix(radix)
    ensures chars == Chars(radix) && power == Unit(radix) % BASE
    ensures power == 0 <==> Unit(radix) == BASE
  {
    hide Pow, CharsFrom;
    power, chars := 1, 0;
    var overflow := false;
    PowZero(radix);
    while !overflow
      invariant !overflow ==> power == Pow(radix, chars) < BASE && power > 0 && Chars(radix) == CharsFrom(radix, chars)
      invariant overflow ==> chars == Chars(radix) && power == Unit(radix) % BASE && (power == 0 <==> Unit(radix) == BASE)
      decreases if overflow then 0 else 1 + BASE - power
    {
      var product := MultipliedFullWidth(power, radix);
      CharsStep(radix, chars, power, product.0, product.1);
      overflow := product.0 != 0;
      var p := product.1;
      if !overflow || p == 0 {
        chars := chars + 1;
        power := p;
      }
    }
  }

  lemma PowZero(radix: nat)
    ensures Pow(radix, 0) == 1
  {
  }

  lemma CharsStep(radix: nat, n: nat, power: nat, high: nat, low: nat)
    requires Radix(radix) && power == Pow(radix, n) < BASE && power > 0 && Chars(radix) == CharsFrom(radix, n)
    requires power * radix == high * BASE + low && low < BASE
    ensures high == 0 ==> low == Pow(radix, n + 1) > power && Chars(radix) == CharsFrom(radix, n + 1)
    ensures high != 0 && low == 0 ==> Chars(radix) == n + 1 && Unit(radix) == BASE
    ensures high != 0 && low != 0 ==> Chars(radix) == n && Unit(radix) == power == Unit(radix) % BASE
  {
    assert Pow(radix, n + 1) == power * radix;
    CharsUnfold(radix, n);
    hide Pow, CharsFrom, Chars;
    CharsRange(power * radix, high, low);
    MulMono(2, radix, power);
    DivModUnique(power, 0, power, BASE);
  }

  lemma CharsUnfold(radix: nat, n: nat)
    requires Radix(radix) && Pow(radix, n) < BASE
    ensures CharsFrom(radix, n) == if Pow(radix, n + 1) < BASE then CharsFrom(radix, n + 1)
                                   else if Pow(radix, n + 1) % BASE == 0 then n + 1 else n
  {
    hide Pow;
  }

  lemma CharsRange(x: int, high: nat, low: nat)
    requires x == high * BASE + low && low < BASE
    ensures x % BASE == low && (high == 0 <==> x < BASE)
  {
    DivModUnique(x, high, low, BASE);
  }

  // ----- parsing -----

  /** The words of a text, the last numerals first; None when a chunk is not a word. */
  function ChunkWords(s: string, radix: nat, chars: nat): Option<seq<Word>>
    requires chars > 0
  {
    if s == [] then Some([])
    else
      var cut := if |s| <= chars then 0 else |s| - chars;
      match WordOfText(s[cut..], radix)
      case None => None
      case Some(d) =>
        match ChunkWords(s[..cut], radix, chars)
        case None => None
        case Some(ws) => Some([d] + ws)
  }

  /** The last chunk is read first; any chunk that is no word spoils the text. */
  lemma ChunksNext(s: string, cut: nat, radix: nat, chars: nat)
    requires chars > 0 && s != [] && cut == (if |s| <= chars then 0 else |s| - chars)
    ensures ChunkWords([], radix, chars) == Some([])
    ensures ChunkWords(s, radix, chars).Some? <==> WordOfText(s[cut..], radix).Some? && ChunkWords(s[..cut], radix, chars).Some?
    ensures ChunkWords(s, radix, chars).Some? ==>
              ChunkWords(s, radix, chars).value == [WordOfText(s[cut..], radix).value] + ChunkWords(s[..cut], radix, chars).value
  {
    hide WordOfText;
  }

  /** A text with a character that is neither a numeral nor a sign is refused. */
  lemma {:induction false} BadCharacter(s: string, radix: nat, chars: nat, i: nat)
    requires Radix(radix) && chars > 0 && i < |s| && NumeralValue(s[i]) >= radix && s[i] != '+' && s[i] != '-'
    ensures ChunkWords(s, radix, chars).None?
    decreases |s|
  {
    hide WordOfText, ChunkWords, TextValue, NumeralValue;
    var cut := if |s| <= chars then 0 else |s| - chars;
    ChunksNext(s, cut, radix, chars);
    if i < cut {
      BadCharacter(s[..cut], radix, chars, i);
    } else {
      var t := s[cut..];
      WordOfTextMeans(t, radix);
      assert t[i - cut] == s[i];
      if t[0] == '+' || t[0] == '-' { assert t[1..][i - cut - 1] == s[i]; }
    }
  }

  /** The number with the given digits, least significant first. */
  function Positional(ws: seq<nat>, unit: nat): nat
  {
    if ws == [] then 0 else ws[0] + unit * Positional(ws[1..], unit)
  }

  function Prepend(ws: seq<Word>, rest: Option<seq<Word>>): Option<seq<Word>>
  {
    match rest
    case None => None
    case Some(r) => Some(ws + r)
  }

  lemma PrependNothing(rest: Option<seq<Word>>)
    ensures Prepend([], rest) == rest
  {
    match rest
    case None =>
    case Some(r) => assert [] + r == r;
  }

  lemma PrependMore(ws: seq<Word>, s: string, d: Word, cut: nat, radix: nat, chars: nat)
    requires chars > 0 && s != [] && cut == (if |s| <= chars then 0 else |s| - chars)
    requires WordOfText(s[cut..], radix) == Some(d)
    ensures Prepend(ws, ChunkWords(s, radix, chars)) == Prepend(ws + [d], ChunkWords(s[..cut], radix, chars))
  {
    match ChunkWords(s[..cut], radix, chars)
    case None =>
    case Some(r) => assert ws + ([d] + r) == ws + [d] + r;
  }

  /** The scan of a text from its end. */
  method SplitText(text: string, radix: nat, chars: nat) returns (r: Option<seq<Word>>)
    requires Radix(radix) && chars > 0
    ensures r == ChunkWords(text, radix, chars)
  {
    hide WordOfText;
    var words: seq<Word> := [];
    var end := |text|;
    var start := end;
    var count := 0;
    assert text[..end] == text;
    PrependNothing(ChunkWords(text, radix, chars));
    while start != 0
      invariant 0 <= start <= end <= |text| && count == end - start < chars
      invariant ChunkWords(text, radix, chars) == Prepend(words, ChunkWords(text[..end], radix, chars))
    {
      start := start - 1;
      count := count + 1;
      if count == chars {
        ghost var s := text[..end];
        assert s[start..] == text[start..end] && s[..start] == text[..start];
        match WordOfText(text[start..end], radix) {
          case None => return None;
          case Some(d) =>
            PrependMore(words, s, d, start, radix, chars);
            words := words + [d];
            end := start;
            count := 0;
        }
      }
    }
    if start != end {
      ghost var s := text[..end];
      assert s[0..] == s && text[start..end] == s;
      match WordOfText(text[start..end], radix) {
        case None => return None;
        case Some(d) =>
          PrependMore(words, s, d, 0, radix, chars);
          words := words + [d];
      }
      assert text[..end][..0] == [];
    }
    assert ChunkWords([], radix, chars) == Some([]);
    assert words + [] == words;
    r := Some(words);
  }

  /** BigUInt(text, radix:). */
  method Parse(text: string, radix: nat) returns (r: Option<BigUInt>)
    requires Radix(radix)
    ensures Chars(radix) > 0
    ensures r.None? <==> ChunkWords(text, radix, Chars(radix)).None?
    ensures r.Some? ==> fresh(r.value) && r.value.Valid()
                        && r.value.Value() == Positional(ChunkWords(text, radix, Chars(radix)).value, Unit(radix))
    ensures AllNumerals(text, radix) ==>
              (r.Some? && r.value.Value() == TextValue(text, radix)
               <==> (radix != 8 && radix != 32) || TextValue(text, radix) < BASE)
  {
    hide BigUInt.Valid, BigUInt.Value, BigUInt.Words, Chars, Unit, ChunkWords, Positional, AllNumerals, TextValue;
    if AllNumerals(text, radix) { ParseMeans(text, radix); }
    CharsMeans(radix);
    var charsPerWord, power := CharsPerWord(radix);
    UnitPower(radix, power);
    var split := SplitText(text, radix, charsPerWord);
    if split.None? { return None; }
    var words := split.value;
    if power == 0 {
      var x := new BigUInt.FromWords(words);
      TrimmedValue(x, words);
      return Some(x);
    }
    var x := new BigUInt();
    PositionalEnd(words, power);
    for i := 0 to |words|
      invariant x.Valid() && fresh(x) && x.Value() == Positional(words[|words| - i..], power)
    {
      ghost var n := |words| - 1 - i;
      assert words[n..][1..] == words[n + 1..];
      PositionalNext(words[n..], power);
      MultiplyByWord(x, power);
      AddWord(x, words[|words| - 1 - i], 0);
      WeightZero();
    }
    assert words[0..] == words;
    r := Some(x);
  }

  lemma WeightZero()
    ensures Weight(0) == 1
  {
  }

  lemma UnitPower(radix: nat, power: Word)
    requires Radix(radix) && power == Unit(radix) % BASE && (power == 0 <==> Unit(radix) == BASE)
    ensures Unit(radix) == (if power == 0 then BASE else power)
  {
    if power != 0 { DivModUnique(Unit(radix), 0, Unit(radix), BASE); }
  }

  lemma PositionalEnd(ws: seq<nat>, unit: nat)
    ensures Positional(ws[|ws|..], unit) == 0
  {
  }

  lemma PositionalNext(ws: seq<nat>, unit: nat)
    requires ws != []
    ensures Positional(ws, unit) == Positional(ws[1..], unit) * unit + ws[0]
  {
  }

  lemma TrimmedValue(x: BigUInt, words: seq<Word>)
    requires x.Valid() && x.Words() == Trim(words)
    ensures x.Value() == Positional(words, BASE)
  {
    NatCongruent(Trim(words), words);
    NatPositional(words);
  }

  lemma {:induction false} NatPositional(w: seq<Word>)
    ensures Nat(w) == Positional(w, BASE)
  {
    SumPositional(w, 0);
    assert w[0..] == w;
    assert Weight(0) == 1;
  }

  lemma {:induction false} SumPositional(w: seq<Word>, i: nat)
    requires i <= |w|
    ensures Nat(w) == Digits.Sum(w, i) + Weight(i) * Positional(w[i..], BASE)
    decreases |w| - i
  {
    if i < |w| {
      SumPositional(w, i + 1);
      WeightStep(i);
      assert w[i..][1..] == w[i + 1..];
      TailShift(w[i], Weight(i), Positional(w[i + 1..], BASE));
    }
  }

  lemma TailShift(d: int, p: int, t: int)
    ensures d * p + (BASE * p) * t == p * (d + BASE * t)
  {
  }

  // ----- printing -----

  /** The digits of v to the base `unit`, least significant first; [0] for zero. */
  function Parts(v: nat, unit: nat): (ws: seq<nat>)
    requires unit >= 2
    ensures |ws| >= 1
  {
    if v < unit then [v] else SmallQuotient(v, unit); [v % unit] + Parts(v / unit, unit)
  }

  function Padded(s: string, chars: nat): string
  {
    if |s| < chars then seq(chars - |s|, i => '0') + s else s
  }

  /** The texts of the parts, highest first, all but the highest filled up with zeros. */
  function Joined(ws: seq<nat>, chars: nat, radix: nat, uppercase: bool): (s: string)
    requires Radix(radix) && |ws| >= 1
    ensures |s| >= 1
  {
    if |ws| == 1 then WordText(ws[0], radix, uppercase)
    else Joined(ws[1..], chars, radix, uppercase) + Padded(WordText(ws[0], radix, uppercase), chars)
  }

  function Printed(v: nat, radix: nat, uppercase: bool): string
    requires Radix(radix)
  {
    CharsMeans(radix);
    Joined(Parts(v, Unit(radix)), Chars(radix), radix, uppercase)
  }

  lemma PartsStep(v: nat, unit: nat, parts: seq<nat>)
    requires unit >= 2
    ensures v < unit ==> parts + Parts(v, unit) == parts + [v]
    ensures v >= unit ==> parts + Parts(v, unit) == parts + [v % unit] + Parts(v / unit, unit)
  {
  }

  /** The digits of v, by repeated division. */
  method DivideOut(x: BigUInt, power: Word) returns (parts: seq<nat>)
    requires x.Valid() && power >= 2 && x.Value() > 0
    ensures parts == Parts(x.Value(), power)
  {
    hide BigUInt.Valid, BigUInt.Value, BigUInt.Words, Parts;
    ghost var v := x.Value();
    var rest := new BigUInt.Copy(x);
    parts := [];
    assert [] + Parts(v, power) == Parts(v, power);
    while !rest.IsZero()
      invariant rest.Valid() && fresh(rest)
      invariant Parts(v, power) == if rest.Value() == 0 then parts else parts + Parts(rest.Value(), power)
      decreases rest.Value()
    {
      ghost var u := rest.Value();
      PartsStep(u, power, parts);
      SmallQuotient(u, power);
      var mod := DivideByWord(rest, power);
      parts := parts + [mod];
    }
  }

  lemma SmallQuotient(u: nat, p: nat)
    requires p >= 2 && u > 0
    ensures u < p ==> u / p == 0 && u % p == u
    ensures u >= p ==> u / p > 0
    ensures u / p < u
  {
    if u < p { DivModUnique(u, 0, u, p); }
    var q := u / p;
    assert u == q * p + u % p;
    if q >= u { MulMono(2, p, q); }
  }

  /** The words of a number are its digits to the base 2^64. */
  lemma {:induction false} WordParts(w: seq<Word>)
    requires Canonical(w) && w != []
    ensures Parts(Nat(w), BASE) == w
  {
    NatPositional(w);
    PositionalParts(w);
  }

  lemma {:induction false} PositionalParts(w: seq<Word>)
    requires Canonical(w) && w != []
    ensures Parts(Positional(w, BASE), BASE) == w
    ensures Positional(w, BASE) > 0
  {
    var t := w[1..];
    if t != [] {
      PositionalParts(t);
      var v := Positional(w, BASE);
      DivModUnique(v, Positional(t, BASE), w[0], BASE);
      assert [w[0]] + t == w;
    } else {
      assert Positional(t, BASE) == 0;
      assert [w[0]] == w;
    }
  }

  /** String(v, radix:, uppercase:). */
  method Print(x: BigUInt, radix: nat, uppercase: bool) returns (s: string)
    requires x.Valid() && Radix(radix)
    ensures s == Printed(x.Value(), radix, uppercase)
  {
    hide BigUInt.Valid, BigUInt.Value, Chars, Unit, Parts, Joined;
    CharsMeans(radix);
    var charsPerWord, power := CharsPerWord(radix);
    UnitPower(radix, power);
    if x.IsZero() {
      PrintedZero(radix, charsPerWord, uppercase);
      return "0";
    }
    var parts: seq<nat>;
    if power == 0 {
      WordsOf(x);
      parts := x.CopyWords();
    } else {
      parts := DivideOut(x, power);
    }
    s := JoinParts(parts, charsPerWord, radix, uppercase);
  }

  lemma PrintedZero(radix: nat, chars: nat, uppercase: bool)
    requires Radix(radix)
    ensures Printed(0, radix, uppercase) == "0"
  {
    CharsMeans(radix);
    assert Parts(0, Unit(radix)) == [0];
    assert Numeral(0, uppercase) == '0';
  }

  lemma WordsOf(x: BigUInt)
    requires x.Valid() && x.Value() > 0
    ensures x.Words() == Parts(x.Value(), BASE)
  {
    WordParts(x.Words());
  }

  /** The texts from the highest part down. */
  method JoinParts(parts: seq<nat>, charsPerWord: nat, radix: nat, uppercase: bool) returns (s: string)
    requires Radix(radix) && |parts| >= 1
    ensures s == Joined(parts, charsPerWord, radix, uppercase)
  {
    hide WordText, Padded, Joined;
    s := "";
    var first := true;
    for i := 0 to |parts|
      invariant first <==> i == 0
      invariant i == 0 ==> s == ""
      invariant i > 0 ==> s == Joined(parts[|parts| - i..], charsPerWord, radix, uppercase)
    {
      ghost var n := |parts| - 1 - i;
      assert parts[n..][1..] == parts[n + 1..];
      var part := WordText(parts[|parts| - 1 - i], radix, uppercase);
      JoinedNext(parts[n..], s, part, charsPerWord, radix, uppercase);
      var zeroes := charsPerWord - |part|;
      if !first && zeroes > 0 {
        s := s + seq(zeroes, i => '0');
      }
      first := false;
      s := s + part;
    }
    assert parts[0..] == parts;
  }

  /** One more part, with the zeros it needs. */
  lemma JoinedNext(ws: seq<nat>, upper: string, part: string, chars: nat, radix: nat, uppercase: bool)
    requires Radix(radix) && |ws| >= 1 && part == WordText(ws[0], radix, uppercase)
    requires |ws| > 1 ==> upper == Joined(ws[1..], chars, radix, uppercase)
    ensures |ws| == 1 ==> "" + part == Joined(ws, chars, radix, uppercase)
    ensures |ws| > 1 && |part| < chars ==> upper + seq(chars - |part|, i => '0') + part == Joined(ws, chars, radix, uppercase)
    ensures |ws| > 1 && |part| >= chars ==> upper + part == Joined(ws, chars, radix, uppercase)
  {
    hide WordText;
    if |ws| > 1 && |part| < chars {
      assert upper + seq(chars - |part|, i => '0') + part == upper + (seq(chars - |part|, i => '0') + part);
    }
  }

  // ----- what the text means, and that parsing undoes printing -----

  predicate AllBelow(ws: seq<nat>, b: nat)
  {
    forall i :: 0 <= i < |ws| ==> ws[i] < b
  }

  lemma BelowMore(ws: seq<nat>, b: nat, c: nat)
    requires AllBelow(ws, b) && b <= c
    ensures AllBelow(ws, c)
  {
  }

  lemma PartsStepMeans(v: nat, unit: nat) returns (q: nat, d: nat)
    requires unit >= 2 && v >= unit
    ensures v == d + unit * q && d < unit && 0 < q < v
    ensures Parts(v, unit) == [d] + Parts(q, unit)
  {
    SmallQuotient(v, unit);
    q, d := v / unit, v % unit;
  }

  lemma {:induction false} PartsMeans(v: nat, unit: nat)
    requires unit >= 2
    ensures Positional(Parts(v, unit), unit) == v
    ensures AllBelow(Parts(v, unit), unit)
    ensures |Parts(v, unit)| > 1 ==> v >= unit && Parts(v, unit)[|Parts(v, unit)| - 1] > 0
    ensures v > 0 ==> Parts(v, unit)[|Parts(v, unit)| - 1] > 0
  {
    if v >= unit {
      var q, d := PartsStepMeans(v, unit);
      PartsMeans(q, unit);
      hide Parts, Positional;
      var t := Parts(q, unit);
      assert ([d] + t)[1..] == t;
      PositionalNext([d] + t, unit);
    } else {
      assert Positional([v][1..], unit) == 0;
    }
  }

  /** A part as it is printed: its numerals denote it, and so do they after zeros. */
  lemma PaddedMeans(w: nat, chars: nat, radix: nat, uppercase: bool)
    requires Radix(radix) && chars >= 1 && w < Pow(radix, chars)
    ensures var t := WordText(w, radix, uppercase);
      && |t| <= chars && |Padded(t, chars)| == chars
      && AllNumerals(t, radix) && AllNumerals(Padded(t, chars), radix)
      && TextValue(t, radix) == w && TextValue(Padded(t, chars), radix) == w
  {
    hide TextValue, WordText, Pow;
    var t := WordText(w, radix, uppercase);
    WordTextMeans(w, radix, uppercase);
    WordTextLength(w, radix, uppercase, chars);
    if |t| < chars {
      TextJoin(seq(chars - |t|, i => '0'), t, radix);
      ZeroText(chars - |t|, radix);
      assert 0 * Pow(radix, |t|) == 0;
    }
  }

  lemma {:induction false} ZeroText(n: nat, radix: nat)
    ensures TextValue(seq(n, i => '0'), radix) == 0
  {
    if n > 0 {
      assert seq(n, i => '0') == seq(n - 1, i => '0') + ['0'];
      TextSnoc(seq(n - 1, i => '0'), '0', radix);
      ZeroText(n - 1, radix);
    }
  }

  /** Parsing takes printed parts apart again. */
  lemma {:induction false} ChunksOfJoined(ws: seq<Word>, chars: nat, radix: nat, uppercase: bool)
    requires Radix(radix) && chars >= 1 && |ws| >= 1
    requires AllBelow(ws, Pow(radix, chars))
    ensures ChunkWords(Joined(ws, chars, radix, uppercase), radix, chars) == Some(ws)
  {
    hide TextValue, WordText, Padded, AllNumerals, WordOfText;
    var t := WordText(ws[0], radix, uppercase);
    PaddedMeans(ws[0], chars, radix, uppercase);
    if |ws| == 1 {
      NumeralsParse(t, radix);
      assert t[0..] == t && t[..0] == [];
      assert [ws[0]] + [] == ws;
    } else {
      var upper, p := Joined(ws[1..], chars, radix, uppercase), Padded(t, chars);
      ChunksOfJoined(ws[1..], chars, radix, uppercase);
      NumeralsParse(p, radix);
      assert (upper + p)[|upper|..] == p && (upper + p)[..|upper|] == upper;
      assert [ws[0]] + ws[1..] == ws;
    }
  }

  /** Printed text: the letters are of the asked case, and only 0 starts with a zero. */
  lemma PrintedForm(v: nat, radix: nat, uppercase: bool)
    requires Radix(radix)
    ensures var s := Printed(v, radix, uppercase);
            && (forall i :: 0 <= i < |s| ==> !(if uppercase then 'a' <= s[i] <= 'z' else 'A' <= s[i] <= 'Z'))
            && |s| >= 1 && (if v > 0 then s[0] != '0' else s == "0")
  {
    hide Numeral, Chars, Unit, Joined, Parts, OfCase;
    CharsMeans(radix);
    PartsMeans(v, Unit(radix));
    JoinedForm(Parts(v, Unit(radix)), Chars(radix), radix, uppercase);
    OfCaseMeans(Printed(v, radix, uppercase), uppercase);
    if v == 0 { PrintedZero(radix, Chars(radix), uppercase); }
  }

  lemma OfCaseMeans(s: string, uppercase: bool)
    ensures OfCase(s, uppercase) <==>
              forall i :: 0 <= i < |s| ==> !(if uppercase then 'a' <= s[i] <= 'z' else 'A' <= s[i] <= 'Z')
  {
  }

  lemma {:induction false} JoinedForm(ws: seq<nat>, chars: nat, radix: nat, uppercase: bool)
    requires Radix(radix) && |ws| >= 1
    ensures OfCase(Joined(ws, chars, radix, uppercase), uppercase)
    ensures ws[|ws| - 1] > 0 ==> Joined(ws, chars, radix, uppercase)[0] != '0'
  {
    hide WordText;
    WordTextForm(ws[0], radix, uppercase);
    if |ws| > 1 { JoinedForm(ws[1..], chars, radix, uppercase); }
  }

  /** Parsing the text of a number gives the number back, in every radix. */
  lemma RoundTrip(v: nat, radix: nat, uppercase: bool)
    requires Radix(radix)
    ensures Chars(radix) > 0
    ensures var r := ChunkWords(Printed(v, radix, uppercase), radix, Chars(radix));
            r.Some? && Positional(r.value, Unit(radix)) == v
  {
    hide Pow, Chars, Unit, Joined, Parts, ChunkWords, Positional;
    CharsMeans(radix);
    UnitBelow(radix);
    PartsMeans(v, Unit(radix));
    BelowMore(Parts(v, Unit(radix)), Unit(radix), BASE);
    BelowMore(Parts(v, Unit(radix)), Unit(radix), Pow(radix, Chars(radix)));
    var ws := WordsFrom(Parts(v, Unit(radix)));
    ChunksOfJoined(ws, Chars(radix), radix, uppercase);
  }

  lemma UnitBelow(radix: nat)
    requires Radix(radix)
    ensures Unit(radix) <= BASE
  {
  }

  lemma WordsFrom(ws: seq<nat>) returns (r: seq<Word>)
    requires AllBelow(ws, BASE)
    ensures r == ws
  {
    r := ws;
  }

  lemma {:induction false} JoinedMeans(ws: seq<nat>, chars: nat, radix: nat, uppercase: bool)
    requires Radix(radix) && chars >= 1 && |ws| >= 1
    requires AllBelow(ws, Pow(radix, chars))
    ensures TextValue(Joined(ws, chars, radix, uppercase), radix) == Positional(ws, Pow(radix, chars))
  {
    hide TextValue, WordText, Padded, AllNumerals, Pow;
    var t := WordText(ws[0], radix, uppercase);
    PaddedMeans(ws[0], chars, radix, uppercase);
    if |ws| == 1 {
      assert Positional(ws[1..], Pow(radix, chars)) == 0;
    } else {
      JoinedMeans(ws[1..], chars, radix, uppercase);
      TextJoin(Joined(ws[1..], chars, radix, uppercase), Padded(t, chars), radix);
    }
  }

  /** Digits read to a larger base than the one they were made for denote more. */
  lemma {:induction false} LargerBase(ws: seq<nat>, b: nat, p: nat)
    requires |ws| >= 1 && 0 < b < p && ws[|ws| - 1] > 0
    ensures 0 < Positional(ws, b) <= Positional(ws, p)
    ensures |ws| > 1 ==> Positional(ws, b) < Positional(ws, p)
  {
    if |ws| > 1 {
      LargerBase(ws[1..], b, p);
      hide Positional;
      PositionalNext(ws, b);
      PositionalNext(ws, p);
      var x, y := Positional(ws[1..], b), Positional(ws[1..], p);
      MulMono(x, y, p);
      assert x * p == x * b + x * (p - b);
      MulMono(1, x, p - b);
      MulMono(1, x, b);
    }
  }

  /** The printed text denotes the number by position, except that in radix 8 and 32, where a
      word's worth of numerals holds more than a word, it does so only for single words. */
  lemma PrintedMeans(v: nat, radix: nat, uppercase: bool)
    requires Radix(radix)
    ensures TextValue(Printed(v, radix, uppercase), radix) == v <==> (radix != 8 && radix != 32) || v < BASE
  {
    hide Pow, Chars, Unit, Joined, Parts, TextValue, Positional;
    CharsMeans(radix);
    UnitCases(radix);
    var unit, p := Unit(radix), Pow(radix, Chars(radix));
    var ws := Parts(v, unit);
    PartsMeans(v, unit);
    BelowMore(ws, unit, p);
    JoinedMeans(ws, Chars(radix), radix, uppercase);
    if radix == 8 || radix == 32 {
      if v < BASE {
        SinglePart(v, unit, p);
      } else {
        LongParts(v, unit);
        LargerBase(ws, unit, p);
      }
    }
  }

  lemma SinglePart(v: nat, unit: nat, p: nat)
    requires 2 <= unit && v < unit
    ensures Positional(Parts(v, unit), p) == v
  {
    assert Positional([v][1..], p) == 0;
  }

  lemma LongParts(v: nat, unit: nat)
    requires 2 <= unit <= v
    ensures |Parts(v, unit)| > 1
  {
  }

  /** One more chunk, for the value of the text and for what is read of it. */
  lemma ChunkStep(s: string, cut: nat, radix: nat, chars: nat)
    requires Radix(radix) && chars > 0 && s != [] && AllNumerals(s, radix)
    requires cut == (if |s| <= chars then 0 else |s| - chars)
    ensures var u := TextValue(s[cut..], radix); var t := ChunkWords(s[..cut], radix, chars);
      && u < Pow(radix, chars)
      && TextValue(s, radix) == TextValue(s[..cut], radix) * Pow(radix, chars) + u
      && ChunkWords(s, radix, chars) == (if u < BASE && t.Some? then Some([u] + t.value) else None)
  {
    hide Pow, TextValue, WordOfText, NumeralValue;
    var t, u := s[..cut], s[cut..];
    assert s == t + u;
    TextBound(u, radix);
    PowMono(radix, |u|, chars);
    NumeralsParse(u, radix);
    TextJoin(t, u, radix);
    if cut == 0 { TextEmpty(radix); }
  }

  /** Digits to a base no larger than the weight of the numerals denote at most the text. */
  lemma ReadStep(ws: seq<Word>, u: Word, unit: nat, p: nat, tv: nat)
    requires 0 < unit <= p && Positional(ws, unit) <= tv
    ensures Positional([u] + ws, unit) <= tv * p + u
    ensures Positional([u] + ws, unit) == tv * p + u <==> Positional(ws, unit) == tv && (unit == p || tv == 0)
  {
    var w := Positional(ws, unit);
    assert ([u] + ws)[1..] == ws;
    PositionalNext([u] + ws, unit);
    MulMono(w, tv, unit);
    assert tv * p == tv * unit + tv * (p - unit);
    if unit < p && tv > 0 { MulMono(1, p - unit, tv); }
    if w < tv { MulMono(w + 1, tv, unit); }
    if tv > 0 { MulNat(tv, p - unit); }
  }

  /** A text of numerals is read as the number it denotes, except that in radix 8 and 32 this
      holds only for numbers below 2^64. Longer texts are refused there, or read as less. */
  lemma {:induction false} ParseMeans(s: string, radix: nat)
    requires Radix(radix) && AllNumerals(s, radix)
    ensures Chars(radix) > 0
    ensures var r := ChunkWords(s, radix, Chars(radix));
      && (r.Some? ==> Positional(r.value, Unit(radix)) <= TextValue(s, radix))
      && (r.Some? && Positional(r.value, Unit(radix)) == TextValue(s, radix)
          <==> (radix != 8 && radix != 32) || TextValue(s, radix) < BASE)
    decreases |s|
  {
    hide Pow, Chars, Unit, TextValue, Positional, WordOfText, NumeralValue, ChunkWords;
    CharsMeans(radix);
    UnitCases(radix);
    UnitBelow(radix);
    var chars, unit := Chars(radix), Unit(radix);
    if s == [] {
      NothingRead(radix, chars, unit);
    } else {
      var cut := if |s| <= chars then 0 else |s| - chars;
      ParseMeans(s[..cut], radix);
      ChunkStep(s, cut, radix, chars);
      var tv, u, t := TextValue(s[..cut], radix), TextValue(s[cut..], radix), ChunkWords(s[..cut], radix, chars);
      if u < BASE && t.Some? { ReadStep(t.value, u, unit, Pow(radix, chars), tv); }
      if tv > 0 { MulMono(1, tv, Pow(radix, chars)); }
      if tv == 0 { assert tv * Pow(radix, chars) == 0; }
    }
  }

  lemma NothingRead(radix: nat, chars: nat, unit: nat)
    requires chars > 0
    ensures ChunkWords([], radix, chars) == Some([]) && Positional([], unit) == 0 && TextValue([], radix) == 0
  {
  }

  // ----- which radices fill a word exactly -----

  /** Only in radix 8 and 32 is the base of the parts not the weight of their numerals. */
  lemma UnitCases(radix: nat)
    requires Radix(radix)
    ensures radix != 8 && radix != 32 ==> Unit(radix) == Pow(radix, Chars(radix))
    ensures radix == 8 || radix == 32 ==> Unit(radix) == BASE < Pow(radix, Chars(radix))
  {
    hide Pow, Pow2, CharsFrom, Chars, Unit;
    if radix == 2 || radix == 4 || radix == 8 || radix == 16 || radix == 32 {
      SmallPowers();
      PowerOfTwo(radix, if radix == 2 then 1 else if radix == 4 then 2 else if radix == 8 then 3 else if radix == 16 then 4 else 5);
    } else {
      OddFactors(radix);
    }
  }

  /** Every other radix has an odd factor. */
  lemma OddFactors(radix: nat)
    requires Radix(radix) && radix != 2 && radix != 4 && radix != 8 && radix != 16 && radix != 32
    ensures Unit(radix) == Pow(radix, Chars(radix))
  {
    hide Pow, Chars, Unit;
    if radix % 2 == 1 { OddCofactor(radix, 1, radix); }
    else if radix % 4 == 2 { OddCofactor(radix, 2, radix / 2); }
    else if radix % 8 == 4 { OddCofactor(radix, 4, radix / 4); }
    else { OddCofactor(radix, 8, radix / 8); }
  }

  lemma OddCofactor(radix: nat, k: nat, m: nat)
    requires Radix(radix) && radix == k * m && m >= 3 && m % 2 == 1
    ensures Unit(radix) == Pow(radix, Chars(radix))
  {
    hide Pow, Chars, Unit;
    DivModUnique(radix, k, 0, m);
    OddFactor(radix, m);
  }

  lemma SmallPowers()
    ensures Pow2(1) == 2 && Pow2(2) == 4 && Pow2(3) == 8 && Pow2(4) == 16 && Pow2(5) == 32
  {
  }

  lemma Pow2Base()
    ensures Pow2(64) == BASE
  {
    MachineInts.PowersOfTwo();
  }

  lemma {:induction false} PowOfPow2(r: nat, k: nat, n: nat)
    requires r == Pow2(k)
    ensures Pow(r, n) == Pow2(k * n)
  {
    if n > 0 {
      PowOfPow2(r, k, n - 1);
      Pow2Add(k, k * (n - 1));
      assert k + k * (n - 1) == k * n;
    } else {
      assert k * 0 == 0;
    }
  }

  /** With radix 2^k the count is the least c with k*c >= 64. */
  lemma PowerOfTwo(radix: nat, k: nat)
    requires Radix(radix) && 1 <= k <= 5 && radix == Pow2(k)
    ensures k != 3 && k != 5 ==> Unit(radix) == Pow(radix, Chars(radix))
    ensures k == 3 || k == 5 ==> Unit(radix) == BASE < Pow(radix, Chars(radix))
  {
    hide Pow, Pow2, CharsFrom, Chars;
    CharsMeans(radix);
    Pow2Base();
    var c := Chars(radix);
    PowOfPow2(radix, k, c - 1);
    PowOfPow2(radix, k, c);
    PowOfPow2(radix, k, c + 1);
    if k * c >= 64 {
      Beyond64(k * c);
      if k * (c - 1) >= 64 { Pow2Mono(64, k * (c - 1)); }
    } else {
      Pow2Mono(k * c + 1, 64);
      Pow2Strict(k * c);
      if k * (c + 1) < 64 { Pow2Mono(k * (c + 1), 63); Pow2Strict(63); } else { Beyond64(k * (c + 1)); }
    }
  }

  lemma Pow2Strict(n: nat)
    ensures Pow2(n) < Pow2(n + 1)
  {
  }

  lemma Beyond64(n: nat)
    requires n >= 64
    ensures Pow2(n) % BASE == 0 && Pow2(n) >= BASE && (n > 64 ==> Pow2(n) > BASE)
  {
    Pow2Base();
    Pow2Add(64, n - 64);
    DivModUnique(Pow2(n), Pow2(n - 64), 0, BASE);
    if n > 64 { Pow2Mono(65, n); Pow2Strict(64); }
  }

  /** A radix with an odd factor has no power that is a small multiple of 2^64. */
  lemma OddFactor(radix: nat, m: nat)
    requires Radix(radix) && m >= 3 && m % 2 == 1 && radix % m == 0
    ensures Unit(radix) == Pow(radix, Chars(radix))
  {
    hide Pow, CharsFrom, Chars;
    CharsMeans(radix);
    var c := Chars(radix);
    if Pow(radix, c) >= BASE {
      var y := Pow(radix, c) / BASE;
      PowSplit(radix, c);
      CofactorSmall(Pow(radix, c), y, radix, Pow(radix, c - 1));
      LongPower(radix, c);
      FourthPower(radix, m, c);
      var m4 := m * m * (m * m);
      OddProduct(m, m);
      OddProduct(m * m, m * m);
      MulMono(3, m, m);
      MulMono(3, m, 3);
      MulMono(9, m * m, m * m);
      MulMono(9, m * m, 9);
      Pow2Base();
      assert Pow2(64) * y == Pow(radix, c);
      ModInvTheory.OddDivides(m4, 64, y);
      DivModUnique(y, 0, y, m4);
    }
  }

  lemma OddProduct(x: int, y: int)
    requires x % 2 == 1 && y % 2 == 1
    ensures (x * y) % 2 == 1
  {
    CongMul(x, 1, y, 1, 2);
  }

  lemma CofactorSmall(p: nat, y: nat, radix: nat, q: nat)
    requires p == radix * q && q < BASE <= p && p % BASE == 0 && y == p / BASE
    ensures p == BASE * y && 0 < y < radix
  {
    if y >= radix { MulMono(radix, y, BASE); MulMono(q, BASE - 1, radix); }
  }

  lemma LongPower(radix: nat, c: nat)
    requires Radix(radix) && Pow(radix, c) >= BASE
    ensures c >= 4
  {
    if c < 4 {
      PowMono(radix, c, 3);
      CubeBound(radix);
    }
  }

  lemma CubeBound(radix: nat)
    requires Radix(radix)
    ensures Pow(radix, 3) <= 36 * 36 * 36
  {
    PowOne(radix);
    assert Pow(radix, 2) == radix * radix && Pow(radix, 3) == radix * (radix * radix);
    MulMono(radix, 36, radix);
    MulMono(radix * radix, 36 * 36, radix);
    MulMono(radix, 36, 36 * 36);
  }

  lemma FourthPower(radix: nat, m: nat, c: nat)
    requires m > 0 && radix % m == 0 && c >= 4
    ensures m * m * (m * m) > 0 && Pow(radix, c) % (m * m * (m * m)) == 0
  {
    var r := radix / m;
    assert radix == m * r;
    hide Pow;
    PowOne(radix);
    PowSplit(radix, 2);
    PowAdd(radix, 2, 2);
    PowAdd(radix, 4, c - 4);
    MulMono(1, m, m);
    MulMono(1, m * m, m * m);
    FactorOut(radix, m, r, Pow(radix, c - 4));
    DivModUnique(Pow(radix, c), r * r * (r * r) * Pow(radix, c - 4), 0, m * m * (m * m));
  }

  lemma FactorOut(x: int, m: int, r: int, z: int)
    requires x == m * r
    ensures x * x * (x * x) * z == r * r * (r * r) * z * (m * m * (m * m))
  {
    var a, b := m * m, r * r;
    assert x * x == a * b;
    assert (a * b) * (a * b) == (a * a) * (b * b);
    assert (a * a) * (b * b) * z == (b * b) * z * (a * a);
  }

  /** In radix 8 a text of numerals may be refused: 22 of them can exceed a word. */
  lemma OctalRefused()
    ensures Chars(8) == 22 && AllNumerals(seq(22, i => '7'), 8)
    ensures ChunkWords(seq(22, i => '7'), 8, Chars(8)).None?
  {
    hide Pow2, CharsFrom, Chars, TextValue, NumeralValue;
    var s := seq(22, i => '7');
    SevenIs();
    OctalChars();
    Sevens(22);
    SmallPowers();
    PowOfPow2(8, 3, 22);
    Pow2Base();
    Pow2Add(64, 2);
    NumeralsParse(s, 8);
    assert s[0..] == s;
  }

  lemma SevenIs()
    ensures NumeralValue('7') == 7
  {
  }

  lemma OctalChars()
    ensures Chars(8) == 22
  {
    hide Pow, CharsFrom, Chars, Pow2;
    SmallPowers();
    UnitCases(8);
    CharsMeans(8);
    Pow2Base();
    var c := Chars(8);
    PowOfPow2(8, 3, c);
    PowOfPow2(8, 3, c - 1);
    if 3 * c < 64 { Pow2Mono(3 * c, 64); }
    if 3 * (c - 1) >= 64 { Pow2Mono(64, 3 * (c - 1)); }
  }

  lemma {:induction false} Sevens(n: nat)
    ensures TextValue(seq(n, i => '7'), 8) == Pow(8, n) - 1
  {
    if n > 0 {
      assert seq(n, i => '7') == seq(n - 1, i => '7') + ['7'];
      TextSnoc(seq(n - 1, i => '7'), '7', 8);
      Sevens(n - 1);
    }
  }
}
