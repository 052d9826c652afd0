/**
 * The two text encodings the runtime writes to the host: a slide index as
 * `index.toString()` (for `cmi.core.lesson_location`), and the visited list
 * as `JSON.stringify(visitedSlides)` (for `cmi.suspend_data`), which the next
 * session reads back with `JSON.parse`. For a list of non-negative integers
 * `JSON.stringify` writes `[` , the decimal numbers separated by `,`, and `]`,
 * with no spaces. `Decode` accepts exactly that form.
 */
module SuspendData {
  import opened Wrappers
  import opened Text

  predicate IsDigit(c: char) {
    '0' <= c <= '9'
  }

  predicate AllDigits(s: string) {
    forall i :: 0 <= i < |s| ==> IsDigit(s[i])
  }

  /** A decimal numeral as JavaScript prints a non-negative integer: no sign, no leading zero. */
  predicate Canonical(s: string) {
    s != [] && AllDigits(s) && (s[0] == '0' ==> |s| == 1)
  }

  function DigitChar(d: nat): (c: char)
    requires d < 10
    ensures IsDigit(c)
  {
    ('0' as int + d) as char
  }

  /** The number a string of digits denotes. */
  function ValueOf(s: string): nat
    requires AllDigits(s)
  {
    if s == [] then 0 else 10 * ValueOf(s[..|s| - 1]) + (s[|s| - 1] as int - '0' as int)
  }

  /** `n.toString()`. */
  function Decimal(n: nat): (r: string)
    ensures Canonical(r)
  {
    if n < 10 then [DigitChar(n)]
    else
      var r := Decimal(n / 10) + [DigitChar(n % 10)];
      assert r[0] == Decimal(n / 10)[0];
      r
  }

  /** Reading back a printed number gives the number. */
  lemma {:induction false} ValueOfDecimal(n: nat)
    ensures ValueOf(Decimal(n)) == n
  {
    if n >= 10 {
      var r := Decimal(n);
      assert r[..|r| - 1] == Decimal(n / 10);
      ValueOfDecimal(n / 10);
    }
  }

  /** A numeral that does not start with `0` denotes a positive number. */
  lemma {:induction false} ValueOfPositive(s: string)
    requires s != [] && AllDigits(s) && s[0] != '0'
    ensures ValueOf(s) >= 1
    decreases |s|
  {
    if |s| > 1 {
      ValueOfPositive(s[..|s| - 1]);
    }
  }

  /** Printing the number a canonical numeral denotes gives the numeral back. */
  lemma {:induction false} DecimalValueOf(s: string)
    requires Canonical(s)
    ensures Decimal(ValueOf(s)) == s
    decreases |s|
  {
    if |s| > 1 {
      var init := s[..|s| - 1];
      assert Canonical(init);
      ValueOfPositive(init);
      DecimalValueOf(init);
      var n := ValueOf(s);
      assert n / 10 == ValueOf(init) && n % 10 == s[|s| - 1] as int - '0' as int;
      assert DigitChar(n % 10) == s[|s| - 1];
    }
  }

  /** `Number(s)` restricted to the numerals `toString` produces; anything else is rejected. */
  function ParseNat(s: string): (r: Option<nat>)
    ensures r.Some? <==> Canonical(s)
    ensures r.Some? ==> Decimal(r.value) == s
  {
    if Canonical(s) then
      DecimalValueOf(s);
      Some(ValueOf(s))
    else None
  }

  /** Reading a printed number with `ParseNat` gives the number back. */
  lemma ParseNatDecimal(n: nat)
    ensures ParseNat(Decimal(n)) == Some(n)
  {
    ValueOfDecimal(n);
  }

  /** The numerals of a list, in order. */
  function Numerals(xs: seq<nat>): (r: seq<string>)
    ensures |r| == |xs|
    ensures forall i :: 0 <= i < |xs| ==> r[i] == Decimal(xs[i])
  {
    seq(|xs|, i requires 0 <= i < |xs| => Decimal(xs[i]))
  }

  /** `JSON.stringify(xs)` for a list of non-negative integers. */
  function Encode(xs: seq<nat>): (r: string)
    ensures |r| >= 2 && r[0] == '[' && r[|r| - 1] == ']'
    ensures forall i :: 0 < i < |r| - 1 ==> IsDigit(r[i]) || r[i] == ','
    ensures r == "[]" <==> xs == []
  {
    var numerals := Numerals(xs);
    var body := Join(numerals, ",");
    JoinedNumerals(numerals);
    var r := "[" + body + "]";
    assert forall i :: 0 < i < |r| - 1 ==> r[i] == body[i - 1];
    r
  }

  /** Numerals joined by commas hold only digits and commas, and are empty only when there are none. */
  lemma {:induction false} JoinedNumerals(pieces: seq<string>)
    requires forall i :: 0 <= i < |pieces| ==> Canonical(pieces[i])
    ensures forall k :: 0 <= k < |Join(pieces, ",")| ==> IsDigit(Join(pieces, ",")[k]) || Join(pieces, ",")[k] == ','
    ensures Join(pieces, ",") == [] <==> pieces == []
    decreases |pieces|
  {
    if |pieces| == 1 {
      assert Join(pieces, ",") == pieces[0];
    } else if |pieces| > 1 {
      var head, tail := pieces[0], Join(pieces[1..], ",");
      JoinedNumerals(pieces[1..]);
      var joined := head + "," + tail;
      assert Join(pieces, ",") == joined;
      forall k | 0 <= k < |joined| ensures IsDigit(joined[k]) || joined[k] == ',' {
        if k < |head| {
          assert joined[k] == head[k];
        } else if k > |head| {
          assert joined[k] == tail[k - |head| - 1];
        }
      }
    }
  }

  /** Parse every piece as a numeral; fail if any piece is not one. */
  function ParseAll(pieces: seq<string>): (r: Option<seq<nat>>)
    ensures r.Some? <==> forall i :: 0 <= i < |pieces| ==> Canonical(pieces[i])
    ensures r.Some? ==> Numerals(r.value) == pieces
  {
    if pieces == [] then Some([])
    else
      match (ParseNat(pieces[0]), ParseAll(pieces[1..]))
      case (Some(x), Some(rest)) =>
        assert pieces == [pieces[0]] + pieces[1..];
        assert Numerals([x] + rest) == [Decimal(x)] + Numerals(rest);
        Some([x] + rest)
      case _ =>
        assert forall i :: 1 <= i < |pieces| ==> pieces[i] == pieces[1..][i - 1];
        None
  }

  /** `JSON.parse(s)` where the result is a list of non-negative integers in the form `Encode` writes. */
  function Decode(s: string): (r: Option<seq<nat>>)
    ensures r.Some? ==> |s| >= 2 && s[0] == '[' && s[|s| - 1] == ']'
    ensures r == Some([]) <==> s == "[]"
  {
    if |s| >= 2 && s[0] == '[' && s[|s| - 1] == ']' then
      var body := s[1..|s| - 1];
      if body == [] then Some([]) else ParseAll(Split(body, ","))
    else None
  }

  /** Numerals contain no comma. */
  lemma NumeralsCommaFree(xs: seq<nat>)
    ensures forall i :: 0 <= i < |xs| ==> ',' !in Numerals(xs)[i]
  {
    forall i | 0 <= i < |xs| ensures ',' !in Numerals(xs)[i] {
      var d := Decimal(xs[i]);
      assert forall j :: 0 <= j < |d| ==> IsDigit(d[j]);
    }
  }

  /** Splitting comma-free pieces joined by commas gives the pieces back. */
  lemma {:induction false} SplitJoinCommaFree(pieces: seq<string>)
    requires pieces != []
    requires forall i :: 0 <= i < |pieces| ==> ',' !in pieces[i]
    ensures Split(Join(pieces, ","), ",") == pieces
    decreases |pieces|
  {
    var head := pieces[0];
    forall j: nat | j < |head| ensures !OccursAt(head + ",", j, ",") {
      assert (head + ",")[j..j + 1] == [head[j]];
    }
    if |pieces| == 1 {
      forall j: nat ensures !OccursAt(head, j, ",") {
        if j + 1 <= |head| {
          assert head[j..j + 1] == [head[j]];
        }
      }
    } else {
      var rest := Join(pieces[1..], ",");
      var s := head + "," + rest;
      assert Join(pieces, ",") == s;
      forall j: nat | j < |head| ensures !OccursAt(s, j, ",") {
        assert s[j..j + 1] == [head[j]];
      }
      assert s[|head|..|head| + 1] == ",";
      FindIs(s, ",", |head|);
      assert s[..|head|] == head && s[|head| + 1..] == rest;
      SplitJoinCommaFree(pieces[1..]);
      assert pieces == [head] + pieces[1..];
    }
  }

  /** What `JSON.stringify` writes, `JSON.parse` reads back as the same list, in the same order. */
  lemma DecodeEncode(xs: seq<nat>)
    ensures Decode(Encode(xs)) == Some(xs)
  {
    var s := Encode(xs);
    var body := Join(Numerals(xs), ",");
    assert s[1..|s| - 1] == body;
    if xs == [] {
      assert body == [];
    } else {
      NumeralsCommaFree(xs);
      SplitJoinCommaFree(Numerals(xs));
      var r := ParseAll(Numerals(xs));
      assert r.Some?;
      NumeralsInjective(r.value, xs);
    }
  }

  /** Lists with the same numerals are equal. */
  lemma NumeralsInjective(xs: seq<nat>, ys: seq<nat>)
    requires Numerals(xs) == Numerals(ys)
    ensures xs == ys
  {
    forall i | 0 <= i < |xs| ensures xs[i] == ys[i] {
      ValueOfDecimal(xs[i]);
      ValueOfDecimal(ys[i]);
      assert Decimal(xs[i]) == Numerals(xs)[i] == Decimal(ys[i]);
    }
  }

  /** The decoder accepts nothing but what the encoder writes. */
  lemma EncodeDecode(s: string, xs: seq<nat>)
    requires Decode(s) == Some(xs)
    ensures Encode(xs) == s
  {
    assert |s| >= 2 && s[0] == '[' && s[|s| - 1] == ']';
    var body := s[1..|s| - 1];
    assert s == "[" + body + "]";
    if body == [] {
      assert xs == [];
      assert Encode(xs) == "[" + "" + "]";
    } else {
      var pieces := Split(body, ",");
      assert ParseAll(pieces) == Some(xs);
      assert Numerals(xs) == pieces;
      JoinSplit(body, ",");
      assert Join(Numerals(xs), ",") == body;
    }
  }
}
