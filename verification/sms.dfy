/**
 * `tosms`, the writer of the SMS sparse-matrix text format fed to LinBox's
 * `rank` program: a header line "rows cols M", one line "i+1 j+1 v" per
 * nonzero with 1-based indices, and the terminator "0 0 0".
 *
 * The nonzeros come in as the triples scipy's `find` returns, in its order;
 * values are integers, printed with `%d`. A reader for the format is the
 * partner of the writer: decoding the text gives back the shape and the
 * triples.
 */
module SmsFormat {
  import opened Util

  /** One nonzero: 0-based row, 0-based column, value. */
  type Triple = (nat, nat, int)

  // ---------------------------------------------------------------------
  // Decimal numerals, as `%d` prints them
  // ---------------------------------------------------------------------

  predicate IsDigit(c: char) { '0' <= c <= '9' }

  /** A non-empty string of decimal digits. */
  predicate IsDigits(s: string)
  {
    |s| > 0 && forall k :: 0 <= k < |s| ==> IsDigit(s[k])
  }

  function DigitChar(d: nat): (c: char)
    requires d < 10
    ensures IsDigit(c) && c as int - '0' as int == d
  {
    ('0' as int + d) as char
  }

  /** `%d` of a natural: most significant digit first, no leading zeros. */
  function NatToString(n: nat): string
  {
    if n < 10 then [DigitChar(n)] else NatToString(n / 10) + [DigitChar(n % 10)]
  }

  /** `%d` of an integer: a minus sign before the digits of a negative one. */
  function IntToString(v: int): string
  {
    if v < 0 then "-" + NatToString(-v) else NatToString(v)
  }

  /** A printed natural is a non-empty string of digits. */
  lemma {:induction false} NatToStringDigits(n: nat)
    ensures IsDigits(NatToString(n))
  {
    if n >= 10 {
      NatToStringDigits(n / 10);
      var s := NatToString(n);
      assert forall k :: 0 <= k < |s| - 1 ==> s[k] == NatToString(n / 10)[k];
    }
  }

  /** A printed integer is one word: non-empty, with neither blank nor newline. */
  lemma IntToStringWord(v: int)
    ensures |IntToString(v)| > 0 && ' ' !in IntToString(v) && '\n' !in IntToString(v)
  {
    var d := NatToString(if v < 0 then -v else v);
    NatToStringDigits(if v < 0 then -v else v);
    assert forall k :: 0 <= k < |IntToString(v)| ==> IntToString(v)[k] == '-' || IsDigit(IntToString(v)[k]);
  }

  /** The value of a string of digits. */
  function ParseNat(s: string): nat
  {
    if |s| == 0 || !IsDigit(s[|s| - 1]) then 0
    else ParseNat(s[..|s| - 1]) * 10 + (s[|s| - 1] as int - '0' as int)
  }

  /** A numeral as `%d` prints it: optionally "-", then digits. */
  predicate IsNumeral(s: string)
  {
    IsDigits(s) || (|s| > 1 && s[0] == '-' && IsDigits(s[1..]))
  }

  function ParseInt(s: string): int
  {
    if |s| > 0 && s[0] == '-' then 0 - ParseNat(s[1..]) else ParseNat(s)
  }

  /** Reading back a printed natural gives the natural. */
  lemma {:induction false} ParseNatToString(n: nat)
    ensures ParseNat(NatToString(n)) == n
  {
    NatToStringDigits(n);
    if n >= 10 {
      ParseNatToString(n / 10);
      var s := NatToString(n);
      assert s[..|s| - 1] == NatToString(n / 10);
    }
  }

  /** Reading back a printed integer gives the integer, and what is printed is a numeral. */
  lemma ParseIntToString(v: int)
    ensures IsNumeral(IntToString(v)) && ParseInt(IntToString(v)) == v
  {
    NatToStringDigits(if v < 0 then -v else v);
    if v < 0 {
      ParseNatToString(-v);
      assert IntToString(v)[1..] == NatToString(-v);
    } else {
      ParseNatToString(v);
    }
  }

  /** A positive integer prints as digits alone. */
  lemma ParsePositive(v: nat)
    ensures IsDigits(IntToString(v)) && ParseNat(IntToString(v)) == v
  {
    NatToStringDigits(v);
    ParseNatToString(v);
  }

  // ---------------------------------------------------------------------
  // Splitting text into lines and words
  // ---------------------------------------------------------------------

  /** The pieces of s between occurrences of c. */
  function Split(s: string, c: char): (r: seq<string>)
    ensures |r| > 0
    decreases |s|
  {
    var k := IndexOf(s, c);
    if k == |s| then [s] else [s[..k]] + Split(s[k + 1..], c)
  }

  /** The lines of a text whose lines all end with a newline. */
  function Lines(s: string): seq<string>
    decreases |s|
  {
    if |s| == 0 then []
    else
      var k := IndexOf(s, '\n');
      if k == |s| then [s] else [s[..k]] + Lines(s[k + 1..])
  }

  lemma IndexOfPrefix(x: string, c: char, rest: string)
    requires c !in x
    ensures IndexOf(x + [c] + rest, c) == |x|
  {
    var s := x + [c] + rest;
    if IndexOf(s, c) > |x| {
      IndexOfBefore(s, c, |x|);
    }
  }

  lemma SplitCons(x: string, c: char, rest: string)
    requires c !in x
    ensures Split(x + [c] + rest, c) == [x] + Split(rest, c)
  {
    var s := x + [c] + rest;
    IndexOfPrefix(x, c, rest);
    assert s[..|x|] == x && s[|x| + 1..] == rest;
  }

  lemma SplitNone(x: string, c: char)
    requires c !in x
    ensures Split(x, c) == [x]
  {
    assert forall t :: 0 <= t < |x| ==> x[t] in x;
  }

  lemma LinesCons(x: string, rest: string)
    requires '\n' !in x
    ensures Lines(x + "\n" + rest) == [x] + Lines(rest)
  {
    var s := x + "\n" + rest;
    IndexOfPrefix(x, '\n', rest);
    assert s[..|x|] == x && s[|x| + 1..] == rest;
  }

  /** The three words of "a b c". */
  lemma WordsOfThree(a: string, b: string, c: string)
    requires ' ' !in a && ' ' !in b && ' ' !in c
    ensures Split(a + " " + b + " " + c, ' ') == [a, b, c]
  {
    assert a + " " + b + " " + c == a + [' '] + (b + [' '] + c);
    SplitCons(a, ' ', b + " " + c);
    SplitCons(b, ' ', c);
    SplitNone(c, ' ');
  }

  // ---------------------------------------------------------------------
  // The writer
  // ---------------------------------------------------------------------

  /** The text of the header line, `'%d %d M' % m.shape`. */
  function HeaderText(rows: nat, cols: nat): string
  {
    NatToString(rows) + " " + NatToString(cols) + " M"
  }

  /** The text of the line of one nonzero, `'%d %d %d' % (i+1, j+1, v)`. */
  function LineText(t: Triple): string
  {
    IntToString(t.0 + 1) + " " + IntToString(t.1 + 1) + " " + IntToString(t.2)
  }

  const Terminator: string := "0 0 0"

  /** The nonzero lines' texts, in order. */
  function LineTexts(T: seq<Triple>): (L: seq<string>)
    ensures |L| == |T|
  {
    if |T| == 0 then [] else [LineText(T[0])] + LineTexts(T[1..])
  }

  /** Lines joined into a text, each followed by its newline. */
  function Join(ls: seq<string>): string
  {
    if |ls| == 0 then "" else ls[0] + "\n" + Join(ls[1..])
  }

  /** The nonzero lines, joined. */
  function Body(T: seq<Triple>): string
  {
    Join(LineTexts(T))
  }

  /** `tosms(m)`: header, the nonzero lines in the order of the triples, terminator. */
  function ToSms(rows: nat, cols: nat, T: seq<Triple>): (out: string)
  {
    HeaderText(rows, cols) + "\n" + Body(T) + Terminator + "\n"
  }

  lemma NoNewlineInLines(t: Triple, rows: nat, cols: nat)
    ensures '\n' !in LineText(t) && '\n' !in HeaderText(rows, cols)
  {
    IntToStringWord(t.0 + 1);
    IntToStringWord(t.1 + 1);
    IntToStringWord(t.2);
    IntToStringWord(rows);
    IntToStringWord(cols);
  }

  lemma JoinCons(ls: seq<string>, rest: string)
    requires |ls| > 0
    ensures Join(ls) + rest == ls[0] + "\n" + (Join(ls[1..]) + rest)
  {
  }

  lemma Regroup<X>(a: seq<X>, b: seq<X>, c: seq<X>, d: seq<X>, e: seq<X>)
    ensures a + b + c + d + e == a + b + (c + (d + e))
  {
  }

  lemma LinesLast(x: string)
    requires '\n' !in x
    ensures Lines(x + "\n") == [x]
  {
    LinesCons(x, "");
    assert x + "\n" + "" == x + "\n";
  }

  lemma ConsAppend<X>(xs: seq<X>, ys: seq<X>)
    requires |xs| > 0
    ensures [xs[0]] + (xs[1..] + ys) == xs + ys
  {
    assert xs == [xs[0]] + xs[1..];
  }

  lemma JoinLinesStep(ls: seq<string>, rest: string)
    requires |ls| > 0 && '\n' !in ls[0]
    requires Lines(Join(ls[1..]) + rest) == ls[1..] + Lines(rest)
    ensures Lines(Join(ls) + rest) == ls + Lines(rest)
  {
    JoinCons(ls, rest);
    LinesCons(ls[0], Join(ls[1..]) + rest);
    ConsAppend(ls, Lines(rest));
  }

  lemma {:induction false} JoinLines(ls: seq<string>, rest: string)
    requires forall k :: 0 <= k < |ls| ==> '\n' !in ls[k]
    ensures Lines(Join(ls) + rest) == ls + Lines(rest)
  {
    if |ls| > 0 {
      JoinLines(ls[1..], rest);
      JoinLinesStep(ls, rest);
    } else {
      assert Join(ls) + rest == rest;
    }
  }

  lemma {:induction false} LineTextsNoNewline(T: seq<Triple>)
    ensures forall k :: 0 <= k < |T| ==> '\n' !in LineTexts(T)[k]
  {
    if |T| > 0 {
      LineTextsNoNewline(T[1..]);
      NoNewlineInLines(T[0], 0, 0);
    }
  }

  /** A header line, joined lines and a last line split back into those lines. */
  lemma TextLines(H: string, ls: seq<string>, last: string)
    requires '\n' !in H && '\n' !in last && forall k :: 0 <= k < |ls| ==> '\n' !in ls[k]
    ensures Lines(H + "\n" + Join(ls) + last + "\n") == [H] + ls + [last]
  {
    Regroup(H, "\n", Join(ls), last, "\n");
    LinesCons(H, Join(ls) + (last + "\n"));
    JoinLines(ls, last + "\n");
    LinesLast(last);
    Regroup([H], ls, [last], [], []);
  }

  /**
   * The text has |T| + 2 lines: the header "rows cols M", then for every
   * triple in order the line of its 1-based row, 1-based column and value,
   * then "0 0 0"; the text ends with a newline.
   */
  lemma ToSmsLines(rows: nat, cols: nat, T: seq<Triple>)
    ensures Lines(ToSms(rows, cols, T)) ==
      [HeaderText(rows, cols)] + LineTexts(T) + [Terminator]
    ensures |Lines(ToSms(rows, cols, T))| == |T| + 2
    ensures ToSms(rows, cols, T)[|ToSms(rows, cols, T)| - 1] == '\n'
  {
    NoNewlineInLines((0, 0, 0), rows, cols);
    LineTextsNoNewline(T);
    TextLines(HeaderText(rows, cols), LineTexts(T), Terminator);
  }

  // ---------------------------------------------------------------------
  // The reader
  // ---------------------------------------------------------------------

  /** A nonzero line "i j v" with positive i, j read back as the 0-based triple. */
  function ParseLine(line: string): (r: Result<Triple>)
  {
    ParseWords(Split(line, ' '))
  }

  /** The words of a nonzero line: two positive indices and a value. */
  function ParseWords(w: seq<string>): (r: Result<Triple>)
  {
    if |w| == 3 && IsDigits(w[0]) && IsDigits(w[1]) && IsNumeral(w[2])
      && ParseNat(w[0]) >= 1 && ParseNat(w[1]) >= 1
    then Ok((ParseNat(w[0]) - 1, ParseNat(w[1]) - 1, ParseInt(w[2])))
    else Failure("malformed entry line")
  }

  function ParseLines(lines: seq<string>): (r: Result<seq<Triple>>)
    ensures r.Ok? ==> |r.value| == |lines|
  {
    if |lines| == 0 then Ok([])
    else
      match ParseLine(lines[0])
      case Failure(e) => Failure(e)
      case Ok(t) =>
        match ParseLines(lines[1..])
        case Failure(e) => Failure(e)
        case Ok(ts) => Ok([t] + ts)
  }

  /** Read an SMS text: the header's shape, the entry lines, and a closing "0 0 0". */
  function FromSms(s: string): (r: Result<(nat, nat, seq<Triple>)>)
  {
    var L := Lines(s);
    if |L| < 2 || L[|L| - 1] != Terminator then Failure("missing terminator")
    else
      var h := Split(L[0], ' ');
      if |h| != 3 || !IsDigits(h[0]) || !IsDigits(h[1]) || h[2] != "M" then Failure("malformed header")
      else
        match ParseLines(L[1..|L| - 1])
        case Failure(e) => Failure(e)
        case Ok(T) => Ok((ParseNat(h[0]), ParseNat(h[1]), T))
  }

  lemma ParseLineOfWords(a: string, b: string, c: string)
    requires ' ' !in a && ' ' !in b && ' ' !in c
    requires IsDigits(a) && IsDigits(b) && IsNumeral(c) && ParseNat(a) >= 1 && ParseNat(b) >= 1
    ensures ParseLine(a + " " + b + " " + c) == Ok((ParseNat(a) - 1, ParseNat(b) - 1, ParseInt(c)))
  {
    WordsOfThree(a, b, c);
    ParseThreeWords(a, b, c);
  }

  lemma ParseThreeWords(a: string, b: string, c: string)
    requires IsDigits(a) && IsDigits(b) && IsNumeral(c) && ParseNat(a) >= 1 && ParseNat(b) >= 1
    ensures ParseWords([a, b, c]) == Ok((ParseNat(a) - 1, ParseNat(b) - 1, ParseInt(c)))
  {
  }

  lemma ParseLineText(t: Triple)
    ensures ParseLine(LineText(t)) == Ok(t)
  {
    ParsePositive(t.0 + 1);
    ParsePositive(t.1 + 1);
    ParseIntToString(t.2);
    IntToStringWord(t.0 + 1);
    IntToStringWord(t.1 + 1);
    IntToStringWord(t.2);
    var a, b, c := IntToString(t.0 + 1), IntToString(t.1 + 1), IntToString(t.2);
    ParseLineOfWords(a, b, c);
    assert LineText(t) == a + " " + b + " " + c;
    assert (ParseNat(a) - 1, ParseNat(b) - 1, ParseInt(c)) == t;
  }

  lemma LineTextsCons(T: seq<Triple>)
    requires |T| > 0
    ensures LineTexts(T)[0] == LineText(T[0]) && LineTexts(T)[1..] == LineTexts(T[1..])
  {
  }

  lemma ParseLinesCons(lines: seq<string>, t: Triple, ts: seq<Triple>)
    requires |lines| > 0 && ParseLine(lines[0]) == Ok(t) && ParseLines(lines[1..]) == Ok(ts)
    ensures ParseLines(lines) == Ok([t] + ts)
  {
  }

  lemma {:induction false} ParseLinesText(T: seq<Triple>)
    ensures ParseLines(LineTexts(T)) == Ok(T)
  {
    if |T| > 0 {
      ParseLineText(T[0]);
      ParseLinesText(T[1..]);
      LineTextsCons(T);
      ParseLinesCons(LineTexts(T), T[0], T[1..]);
      assert [T[0]] + T[1..] == T;
    }
  }

  lemma FromSmsOfLines(s: string, L: seq<string>, h: seq<string>, T: seq<Triple>)
    requires L == Lines(s) && |L| >= 2 && L[|L| - 1] == Terminator
    requires h == Split(L[0], ' ') && |h| == 3 && IsDigits(h[0]) && IsDigits(h[1]) && h[2] == "M"
    requires ParseLines(L[1..|L| - 1]) == Ok(T)
    ensures FromSms(s) == Ok((ParseNat(h[0]), ParseNat(h[1]), T))
  {
  }

  /** Reading the written text gives back the shape and every triple in order: the writer loses nothing. */
  lemma FromToSms(rows: nat, cols: nat, T: seq<Triple>)
    ensures FromSms(ToSms(rows, cols, T)) == Ok((rows, cols, T))
  {
    var out := ToSms(rows, cols, T);
    ToSmsLines(rows, cols, T);
    var L := Lines(out);
    assert |L| >= 2 && L[|L| - 1] == Terminator && L[0] == HeaderText(rows, cols);
    assert L[1..|L| - 1] == LineTexts(T);
    ParseLinesText(T);
    var h := Split(L[0], ' ');
    assert L[0] == NatToString(rows) + " " + NatToString(cols) + " " + "M";
    IntToStringWord(rows);
    IntToStringWord(cols);
    WordsOfThree(NatToString(rows), NatToString(cols), "M");
    assert h == [NatToString(rows), NatToString(cols), "M"];
    ParseNatToString(rows);
    ParseNatToString(cols);
    NatToStringDigits(rows);
    NatToStringDigits(cols);
    FromSmsOfLines(out, L, h, T);
  }
}
