/** Records and their text encoding: one Java `int` per line, written as
    `num + "\n"` and read back line by line with `Integer.parseInt`. */
module Records {
  import opened Failures

  const IntMin: int := -0x8000_0000
  const IntMax: int := 0x7FFF_FFFF

  /** A record: a Java `int`. */
  type Int32 = x: int | IntMin <= x <= IntMax

  // ---------------------------------------------------------------------
  // Decimal digits
  // ---------------------------------------------------------------------

  predicate IsDigit(c: char) { '0' <= c <= '9' }

  predicate AllDigits(s: string) { forall i :: 0 <= i < |s| ==> IsDigit(s[i]) }

  function DigitValue(c: char): nat
    requires IsDigit(c)
  {
    c as int - '0' as int
  }

  function DigitChar(d: nat): (c: char)
    requires d < 10
    ensures IsDigit(c) && DigitValue(c) == d
  {
    (d + '0' as int) as char
  }

  /** The decimal digits of `n`, most significant first. */
  function Digits(n: nat): string
  {
    if n < 10 then [DigitChar(n)] else Digits(n / 10) + [DigitChar(n % 10)]
  }

  /** The number a string of decimal digits denotes (leading zeros allowed). */
  function DigitsValue(s: string): nat
    requires AllDigits(s)
  {
    if s == [] then 0 else DigitsValue(s[..|s| - 1]) * 10 + DigitValue(s[|s| - 1])
  }

  /** `Digits(n)` is a non-empty string of decimal digits with no leading
      zero, and it denotes `n`. */
  lemma {:induction false} DigitsValueOfDigits(n: nat)
    ensures Digits(n) != [] && AllDigits(Digits(n))
    ensures (Digits(n)[0] == '0') == (n == 0)
    ensures DigitsValue(Digits(n)) == n
  {
    if n >= 10 {
      DigitsValueOfDigits(n / 10);
      var s := Digits(n);
      assert s[..|s| - 1] == Digits(n / 10);
    }
  }

  /** Different numbers have different digit strings. */
  lemma DigitsInjective(m: nat, n: nat)
    ensures Digits(m) == Digits(n) <==> m == n
  {
    if Digits(m) == Digits(n) {
      DigitsValueOfDigits(m);
      DigitsValueOfDigits(n);
    }
  }

  // ---------------------------------------------------------------------
  // Integer.toString and Integer.parseInt
  // ---------------------------------------------------------------------

  /** `Integer.toString(x)`, the text `num + "\n"` puts before the newline:
      a minus sign exactly for a negative `x`, then decimal digits. */
  function FormatInt(x: Int32): (s: string)
    ensures |s| > 0 && (s[0] == '-' <==> x < 0)
    ensures AllDigits(if x < 0 then s[1..] else s)
  {
    DigitsValueOfDigits(if x < 0 then -(x as int) else x as int);
    if x < 0 then "-" + Digits(-(x as int)) else Digits(x)
  }

  /** The number a string of decimal digits denotes, or `None` when one of
      its characters is not a digit; the empty string denotes 0. */
  function DigitsNumber(s: string): Option<nat>
  {
    if s == [] then Some(0)
    else
      match DigitsNumber(s[..|s| - 1])
      case None => None
      case Some(v) => if IsDigit(s[|s| - 1]) then Some(v * 10 + DigitValue(s[|s| - 1])) else None
  }

  /** `DigitsNumber` accepts exactly the strings of digits, and gives the
      number they denote. */
  lemma {:induction false} DigitsNumberValue(s: string)
    ensures DigitsNumber(s).Some? <==> AllDigits(s)
    ensures AllDigits(s) ==> DigitsNumber(s) == Some(DigitsValue(s))
  {
    if s != [] {
      var init := s[..|s| - 1];
      DigitsNumberValue(init);
      assert forall i :: 0 <= i < |init| ==> init[i] == s[i];
    }
  }

  /** `Integer.parseInt(s)`: an optional sign, then one or more decimal
      digits, denoting a value in the `int` range; anything else is a
      `NumberFormatException` naming the input. */
  function ParseInt(s: string): (r: Result<Int32>)
    ensures r.Err? ==> r.error == NumberFormat(s)
  {
    var signed := |s| > 0 && (s[0] == '-' || s[0] == '+');
    var body := if signed then s[1..] else s;
    if body == [] then Err(NumberFormat(s))
    else
      match DigitsNumber(body)
      case None => Err(NumberFormat(s))
      case Some(d) =>
        var v: int := if |s| > 0 && s[0] == '-' then 0 - d else d;
        if IntMin <= v <= IntMax then Ok(v) else Err(NumberFormat(s))
  }

  /** Reading back what `Integer.toString` wrote gives the same `int`. */
  lemma ParseFormat(x: Int32)
    ensures ParseInt(FormatInt(x)) == Ok(x)
  {
    var s := FormatInt(x);
    var n: nat := if x < 0 then -(x as int) else x as int;
    var body := if x < 0 then s[1..] else s;
    assert body == Digits(n);
    DigitsValueOfDigits(n);
    DigitsNumberValue(body);
    assert DigitsNumber(body) == Some(n);
    assert (|s| > 0 && (s[0] == '-' || s[0] == '+')) == (x < 0) by {
      if x >= 0 { assert IsDigit(s[0]); }
    }
  }

  /** What parseInt refuses: the empty line, a lone sign, a character that is
      neither a leading sign nor a digit, and values outside the `int` range,
      written with or without a sign. */
  lemma ParseIntRejects(s: string)
    requires || s == [] || s == "-" || s == "+"
             || (exists i :: 0 < i < |s| && !IsDigit(s[i]))
             || (|s| > 0 && !IsDigit(s[0]) && s[0] != '-' && s[0] != '+')
             || (AllDigits(s) && s != [] && DigitsValue(s) > IntMax)
             || (|s| > 1 && s[0] == '+' && AllDigits(s[1..]) && DigitsValue(s[1..]) > IntMax)
             || (|s| > 1 && s[0] == '-' && AllDigits(s[1..]) && DigitsValue(s[1..]) > -IntMin)
    ensures ParseInt(s) == Err(NumberFormat(s))
  {
    var signed := |s| > 0 && (s[0] == '-' || s[0] == '+');
    DigitsNumberValue(if signed then s[1..] else s);
    if exists i :: 0 < i < |s| && !IsDigit(s[i]) {
      var i :| 0 < i < |s| && !IsDigit(s[i]);
      var signed := s[0] == '-' || s[0] == '+';
      if signed {
        assert !IsDigit(s[1..][i - 1]);
      } else {
        assert !IsDigit(s[i]);
      }
    }
  }

  // ---------------------------------------------------------------------
  // Lines
  // ---------------------------------------------------------------------

  /** What `writer.write(num + "\n")` writes for one record. */
  function Line(x: Int32): string
  {
    FormatInt(x) + "\n"
  }

  /** The text of a file written record by record. */
  function EncodeLines(xs: seq<Int32>): string
  {
    if xs == [] then "" else EncodeLines(xs[..|xs| - 1]) + Line(xs[|xs| - 1])
  }

  predicate IsLineBreak(c: char) { c == '\n' || c == '\r' }

  /** Index of the first line break of `t`, or `|t|` when it has none. */
  function LineEnd(t: string): (k: nat)
    ensures k <= |t|
    ensures forall i :: 0 <= i < k ==> !IsLineBreak(t[i])
    ensures k < |t| ==> IsLineBreak(t[k])
  {
    if t == [] || IsLineBreak(t[0]) then 0 else 1 + LineEnd(t[1..])
  }

  /** The lines successive `BufferedReader.readLine` calls return before
      `null`: a line ends at '\n', '\r' or "\r\n", and a last line without a
      terminator is returned too. */
  function ReadLines(t: string): (ls: seq<string>)
    ensures ls == [] <==> t == []
    ensures |ls| <= |t|
    decreases |t|
  {
    if t == [] then []
    else
      var k := LineEnd(t);
      var next := if k == |t| then k
                  else if t[k] == '\r' && k + 1 < |t| && t[k + 1] == '\n' then k + 2
                  else k + 1;
      [t[..k]] + ReadLines(t[next..])
  }

  /** Parses every line in order, stopping at the first one parseInt
      refuses: one record per line, or a `NumberFormatException`. */
  function DecodeLines(ls: seq<string>): (r: Result<seq<Int32>>)
    ensures r.Ok? ==> |r.value| == |ls|
    ensures r.Err? ==> r.error.NumberFormat?
  {
    if ls == [] then Ok([])
    else
      match DecodeLines(ls[..|ls| - 1])
      case Err(e) => Err(e)
      case Ok(vs) =>
        match ParseInt(ls[|ls| - 1])
        case Err(e) => Err(e)
        case Ok(v) => Ok(vs + [v])
  }

  /** Decoding succeeds exactly when every line parses, and then yields
      each line's value, in order. */
  lemma {:induction false} DecodeLinesOk(ls: seq<string>)
    ensures DecodeLines(ls).Ok? <==> forall i :: 0 <= i < |ls| ==> ParseInt(ls[i]).Ok?
    ensures DecodeLines(ls).Ok? ==>
              && |DecodeLines(ls).value| == |ls|
              && forall i :: 0 <= i < |ls| ==> ParseInt(ls[i]) == Ok(DecodeLines(ls).value[i])
    decreases |ls|
  {
    if ls != [] {
      var n := |ls| - 1;
      var init := ls[..n];
      DecodeLinesOk(init);
      assert forall i :: 0 <= i < n ==> init[i] == ls[i];
      if DecodeLines(init).Ok? && ParseInt(ls[n]).Ok? {
        var vs := DecodeLines(init).value;
        var ws := vs + [ParseInt(ls[n]).value];
        assert DecodeLines(ls) == Ok(ws);
        forall i | 0 <= i < |ls|
          ensures ParseInt(ls[i]) == Ok(ws[i])
        {
          if i < n {
            assert ParseInt(init[i]) == Ok(vs[i]);
          }
        }
      } else if DecodeLines(init).Err? {
        var i :| 0 <= i < n && ParseInt(init[i]).Err?;
        assert ParseInt(ls[i]).Err?;
      }
    }
  }

  /** The records of the lines before the first line parseInt refuses: the
      longest prefix of the lines that decodes. */
  function ValidPrefix(ls: seq<string>): (vs: seq<Int32>)
    ensures |vs| <= |ls| && DecodeLines(ls[..|vs|]) == Ok(vs)
    ensures |vs| < |ls| ==> ParseInt(ls[|vs|]).Err?
  {
    if DecodeLines(ls).Ok? then
      assert ls[..|ls|] == ls;
      DecodeLinesOk(ls);
      DecodeLines(ls).value
    else
      var n := |ls| - 1;
      var vs := ValidPrefix(ls[..n]);
      assert ls[..n][..|vs|] == ls[..|vs|];
      if |vs| < n then
        assert ls[..n][|vs|] == ls[|vs|];
        vs
      else
        DecodeLinesOk(ls[..n]);
        assert ls[..n] == ls[..|vs|];
        vs
  }

  /** The error decoding reports names the first line parseInt refuses. */
  lemma DecodeLinesErr(ls: seq<string>)
    requires DecodeLines(ls).Err?
    ensures |ValidPrefix(ls)| < |ls|
    ensures DecodeLines(ls) == Err(NumberFormat(ls[|ValidPrefix(ls)|]))
  {
    var vs := ValidPrefix(ls);
    assert ls[..|ls|] == ls;
    DecodeFailsAt(ls, |vs|, vs);
  }

  /** The line a failed decode names is one of the lines read. */
  lemma DecodeLinesRefused(ls: seq<string>)
    ensures DecodeLines(ls).Err? ==> DecodeLines(ls).error.input in ls
  {
    if DecodeLines(ls).Err? {
      DecodeLinesErr(ls);
    }
  }

  /** Writing one more record appends its line. */
  lemma EncodeSnoc(xs: seq<Int32>, x: Int32)
    ensures EncodeLines(xs + [x]) == EncodeLines(xs) + Line(x)
  {
    assert (xs + [x])[..|xs|] == xs;
  }

  /** The concatenation of a list of record sequences, in list order. */
  function Concat(chunks: seq<seq<Int32>>): seq<Int32>
  {
    if chunks == [] then [] else Concat(chunks[..|chunks| - 1]) + chunks[|chunks| - 1]
  }

  lemma {:induction false} ConcatCons(c: seq<Int32>, cs: seq<seq<Int32>>)
    ensures Concat([c] + cs) == c + Concat(cs)
    decreases |cs|
  {
    if cs != [] {
      var n := |cs| - 1;
      assert ([c] + cs)[..n + 1] == [c] + cs[..n];
      ConcatCons(c, cs[..n]);
    }
  }

  // ---------------------------------------------------------------------
  // Round trip
  // ---------------------------------------------------------------------

  lemma {:induction false} EncodeCons(xs: seq<Int32>)
    requires xs != []
    ensures EncodeLines(xs) == Line(xs[0]) + EncodeLines(xs[1..])
    decreases |xs|
  {
    if |xs| > 1 {
      var n := |xs| - 1;
      var init, tail := xs[..n], xs[1..];
      EncodeCons(init);
      assert init[1..] == tail[..n - 1] && init[0] == xs[0] && tail[n - 1] == xs[n];
      var head, mid, last := Line(xs[0]), EncodeLines(tail[..n - 1]), Line(xs[n]);
      assert EncodeLines(init) == head + mid;
      assert EncodeLines(tail) == mid + last;
      assert EncodeLines(xs) == (head + mid) + last;
      AppendAssoc(head, mid, last);
    } else {
      assert xs[1..] == [] && xs[..0] == [];
    }
  }

  /** Regrouping a concatenation. Kept as a lemma of its own so that the
      step is proved apart from `EncodeCons`'s other facts. */
  lemma AppendAssoc(a: string, b: string, c: string)
    ensures (a + b) + c == a + (b + c)
  {
  }

  lemma {:induction false} LineEndBefore(u: string, t: string)
    requires forall i :: 0 <= i < |u| ==> !IsLineBreak(u[i])
    requires t != [] && IsLineBreak(t[0])
    ensures LineEnd(u + t) == |u|
    decreases |u|
  {
    if u != [] {
      assert (u + t)[1..] == u[1..] + t;
      LineEndBefore(u[1..], t);
    }
  }

  lemma ReadLinesAfterLine(x: Int32, t: string)
    ensures ReadLines(Line(x) + t) == [FormatInt(x)] + ReadLines(t)
  {
    var u := FormatInt(x);
    assert forall i :: 0 <= i < |u| ==> !IsLineBreak(u[i]) by {
      DigitsValueOfDigits(if x < 0 then -(x as int) else x as int);
      if x < 0 {
        forall i | 0 < i < |u| ensures IsDigit(u[i]) { assert u[i] == Digits(-(x as int))[i - 1]; }
      }
    }
    var s := Line(x) + t;
    assert s == u + ("\n" + t);
    LineEndBefore(u, "\n" + t);
    assert s[..|u|] == u;
    assert s[|u| + 1..] == t;
  }

  /** The decimal texts of records, one per record, in order. */
  function Texts(xs: seq<Int32>): (ts: seq<string>)
    ensures |ts| == |xs|
    ensures forall i :: 0 <= i < |xs| ==> ts[i] == FormatInt(xs[i])
  {
    if xs == [] then [] else [FormatInt(xs[0])] + Texts(xs[1..])
  }

  /** Reading back a file written with `num + "\n"` yields one line per
      record, each the record's decimal text. */
  lemma {:induction false} ReadEncoded(xs: seq<Int32>)
    ensures ReadLines(EncodeLines(xs)) == Texts(xs)
    decreases |xs|
  {
    if xs != [] {
      EncodeCons(xs);
      ReadLinesAfterLine(xs[0], EncodeLines(xs[1..]));
      ReadEncoded(xs[1..]);
    }
  }

  /** The record round trip: writing records with `num + "\n"` and reading
      them back with readLine and parseInt gives the same records. */
  lemma DecodeEncoded(xs: seq<Int32>)
    ensures DecodeLines(ReadLines(EncodeLines(xs))) == Ok(xs)
  {
    ReadEncoded(xs);
    var ls := Texts(xs);
    forall i | 0 <= i < |xs| ensures ParseInt(ls[i]) == Ok(xs[i]) {
      ParseFormat(xs[i]);
    }
    DecodeLinesOk(ls);
    var r := DecodeLines(ls);
    assert r.Ok?;
    forall i | 0 <= i < |xs| ensures r.value[i] == xs[i] {
      assert ParseInt(ls[i]) == Ok(r.value[i]);
    }
    assert r.value == xs;
  }

  /** Decoding one more line of the same list. */
  lemma DecodeNext(ls: seq<string>, k: nat, xs: seq<Int32>, v: Int32)
    requires k < |ls| && DecodeLines(ls[..k]) == Ok(xs) && ParseInt(ls[k]) == Ok(v)
    ensures DecodeLines(ls[..k + 1]) == Ok(xs + [v])
  {
    assert ls[..k + 1][..k] == ls[..k];
  }

  /** Once a prefix fails to decode, every longer prefix fails the same way. */
  lemma {:induction false} DecodeErrExtends(ls: seq<string>, m: nat)
    requires m <= |ls| && DecodeLines(ls[..m]).Err?
    ensures DecodeLines(ls) == DecodeLines(ls[..m])
    decreases |ls| - m
  {
    if m < |ls| {
      assert ls[..m + 1][..m] == ls[..m];
      DecodeErrExtends(ls, m + 1);
    } else {
      assert ls[..m] == ls;
    }
  }

  /** When the lines before line `k` all parse and line `k` does not, the
      whole decode fails on line `k`, and the valid prefix is exactly the
      records before it. */
  lemma DecodeFailsAt(ls: seq<string>, k: nat, xs: seq<Int32>)
    requires k < |ls| && DecodeLines(ls[..k]) == Ok(xs) && ParseInt(ls[k]).Err?
    ensures DecodeLines(ls) == Err(NumberFormat(ls[k]))
    ensures ValidPrefix(ls) == xs
  {
    assert ls[..k + 1][..k] == ls[..k];
    DecodeErrExtends(ls, k + 1);
    DecodeLinesOk(ls[..k]);
    assert forall i :: 0 <= i < k ==> ParseInt(ls[i]).Ok? by {
      forall i | 0 <= i < k ensures ParseInt(ls[i]).Ok? { assert ls[..k][i] == ls[i]; }
    }
    FirstRefused(ls, k);
  }

  /** The valid prefix stops exactly at the first refused line. */
  lemma FirstRefused(ls: seq<string>, k: nat)
    requires k < |ls| && ParseInt(ls[k]).Err?
    requires forall i :: 0 <= i < k ==> ParseInt(ls[i]).Ok?
    ensures |ValidPrefix(ls)| == k
  {
    var m := |ValidPrefix(ls)|;
    DecodeLinesOk(ls[..m]);
  }
}
