/**
  `badgeParser`: a comma-separated list of integers, read by `stoi`.
 */
module Badge {
  import opened Wrappers
  import opened Strings

  datatype StoiError = InvalidArgument | OutOfRange

  // ---------- std::stoi ----------

  predicate IsDigit(c: char) { '0' <= c <= '9' }

  function DigitValue(c: char): (d: nat)
    requires IsDigit(c)
    ensures d < 10
  {
    (c - '0') as nat
  }

  predicate FitsInt(n: int) { -0x8000_0000 <= n < 0x8000_0000 }

  function SkipSpaces(s: string): string {
    if s != [] && IsSpace(s[0]) then SkipSpaces(s[1..]) else s
  }

  /** The leading digits, continuing from `acc`. */
  function ReadDigits(s: string, acc: nat): nat {
    if s != [] && IsDigit(s[0]) then ReadDigits(s[1..], 10 * acc + DigitValue(s[0])) else acc
  }

  /** Leading spaces, a sign, then digits; what follows the digits is not looked at. */
  function Stoi(word: string): Result<int, StoiError> {
    var s := SkipSpaces(word);
    var negative := s != [] && s[0] == '-';
    var t := if s != [] && (s[0] == '-' || s[0] == '+') then s[1..] else s;
    if t == [] || !IsDigit(t[0]) then Err(InvalidArgument)
    else
      var m: int := ReadDigits(t, 0);
      var n := if negative then -m else m;
      if FitsInt(n) then Ok(n) else Err(OutOfRange)
  }

  // ---------- printing ----------

  function DigitChar(d: nat): (c: char)
    requires d < 10
    ensures IsDigit(c) && DigitValue(c) == d
  {
    '0' + d as char
  }

  function DecimalNat(n: nat): (s: string)
    ensures s != [] && forall i :: 0 <= i < |s| ==> IsDigit(s[i])
  {
    if n < 10 then [DigitChar(n)] else DecimalNat(n / 10) + [DigitChar(n % 10)]
  }

  function Decimal(n: int): (s: string)
    ensures s != [] && forall i :: 0 <= i < |s| ==> s[i] != ','
  {
    if n < 0 then "-" + DecimalNat(-n) else DecimalNat(n)
  }

  lemma {:induction false} ReadOneMore(s: string, c: char, acc: nat)
    requires forall i :: 0 <= i < |s| ==> IsDigit(s[i])
    requires IsDigit(c)
    ensures ReadDigits(s + [c], acc) == 10 * ReadDigits(s, acc) + DigitValue(c)
  {
    if s == [] {
      assert [c][1..] == [];
    } else {
      assert (s + [c])[1..] == s[1..] + [c];
      ReadOneMore(s[1..], c, 10 * acc + DigitValue(s[0]));
    }
  }

  lemma {:induction false} ReadDecimal(n: nat)
    ensures ReadDigits(DecimalNat(n), 0) == n
  {
    if n < 10 {
      assert [DigitChar(n)][1..] == [];
    } else {
      ReadDecimal(n / 10);
      ReadOneMore(DecimalNat(n / 10), DigitChar(n % 10), 0);
    }
  }

  /** `stoi` inverts printing on the whole range of `int`, and overflows outside of it. */
  lemma StoiOfDecimal(n: int)
    ensures Stoi(Decimal(n)) == if FitsInt(n) then Ok(n) else Err(OutOfRange)
  {
    if n < 0 {
      ReadDecimal(-n);
      assert ("-" + DecimalNat(-n))[1..] == DecimalNat(-n);
    } else {
      ReadDecimal(n);
    }
  }

  /** Leading zeros do not matter, and reading stops in front of what is no digit. */
  lemma {:induction false} ReadZeros(zeros: string, s: string)
    requires forall i :: 0 <= i < |zeros| ==> zeros[i] == '0'
    ensures ReadDigits(zeros + s, 0) == ReadDigits(s, 0)
  {
    if zeros == [] {
      assert zeros + s == s;
    } else {
      assert (zeros + s)[1..] == zeros[1..] + s;
      ReadZeros(zeros[1..], s);
    }
  }

  lemma {:induction false} ReadStops(s: string, tail: string, acc: nat)
    requires (forall i :: 0 <= i < |s| ==> IsDigit(s[i])) && (tail == [] || !IsDigit(tail[0]))
    ensures ReadDigits(s + tail, acc) == ReadDigits(s, acc)
  {
    if s == [] {
      assert s + tail == tail;
    } else {
      assert (s + tail)[1..] == s[1..] + tail;
      ReadStops(s[1..], tail, 10 * acc + DigitValue(s[0]));
    }
  }

  lemma {:induction false} SkipGap(gap: string, s: string)
    requires (forall i :: 0 <= i < |gap| ==> IsSpace(gap[i])) && (s == [] || !IsSpace(s[0]))
    ensures SkipSpaces(gap + s) == s
  {
    if gap == [] {
      assert gap + s == s;
    } else {
      assert (gap + s)[1..] == gap[1..] + s;
      SkipGap(gap[1..], s);
    }
  }

  predicate IsSign(sign: string) {
    sign == "" || sign == "+" || sign == "-"
  }

  function WithSign(sign: string, n: int): int {
    if sign == "-" then -n else n
  }

  /**
    `stoi` reads a number behind spaces, a sign and zeros, and does not look at what
    follows it; it overflows exactly outside of the range of `int`.
   */
  lemma StoiOfNumber(gap: string, sign: string, zeros: string, n: nat, tail: string)
    requires (forall i :: 0 <= i < |gap| ==> IsSpace(gap[i])) && IsSign(sign)
    requires (forall i :: 0 <= i < |zeros| ==> zeros[i] == '0') && (tail == [] || !IsDigit(tail[0]))
    ensures var value := WithSign(sign, n);
            Stoi(gap + (sign + (zeros + DecimalNat(n) + tail))) == if FitsInt(value) then Ok(value) else Err(OutOfRange)
  {
    var digits := zeros + DecimalNat(n);
    var t := digits + tail;
    assert t[0] == digits[0] && IsDigit(digits[0]);
    SkipGap(gap, sign + t);
    if sign == "" {
      assert sign + t == t;
    } else {
      assert (sign + t)[1..] == t;
    }
    ReadStops(digits, tail, 0);
    ReadZeros(zeros, DecimalNat(n));
    ReadDecimal(n);
  }

  /** Without a digit behind the spaces and the sign there is no number. */
  lemma StoiOfNoNumber(gap: string, sign: string, tail: string)
    requires (forall i :: 0 <= i < |gap| ==> IsSpace(gap[i])) && IsSign(sign)
    requires tail == [] || !IsDigit(tail[0])
    requires sign == "" && tail != [] ==> !IsSpace(tail[0]) && !IsSign(tail[..1])
    ensures Stoi(gap + (sign + tail)) == Err(InvalidArgument)
  {
    SkipGap(gap, sign + tail);
    if sign == "" {
      assert sign + tail == tail;
      if tail != [] {
        assert tail[..1] == [tail[0]];
      }
    } else {
      assert (sign + tail)[1..] == tail;
    }
  }

  lemma StoiOfNothing()
    ensures Stoi("") == Err(InvalidArgument)
  {
  }

  // ---------- fields ----------

  /** The fields between commas; there is always at least one. */
  function Fields(s: string): (fs: seq<string>)
    ensures fs != []
  {
    if s == [] then [[]]
    else
      var rest := Fields(s[1..]);
      if s[0] == ',' then [[]] + rest else [[s[0]] + rest[0]] + rest[1..]
  }

  function Join(fs: seq<string>): string
    requires fs != []
  {
    if |fs| == 1 then fs[0] else fs[0] + "," + Join(fs[1..])
  }

  predicate NoComma(f: string) {
    forall i :: 0 <= i < |f| ==> f[i] != ','
  }

  /** A field that is followed by nothing, or by a comma. */
  lemma {:induction false} FieldsOfPrefix(f: string, rest: string)
    requires NoComma(f) && (rest == [] || rest[0] == ',')
    ensures Fields(f + rest) == [f] + Fields(rest)[1..]
  {
    if f == [] {
      assert f + rest == rest;
      if rest == [] {
        assert Fields(rest) == [[]];
      }
    } else {
      assert (f + rest)[1..] == f[1..] + rest;
      FieldsOfPrefix(f[1..], rest);
      var x := Fields(rest)[1..];
      assert ([f[1..]] + x)[0] == f[1..] && ([f[1..]] + x)[1..] == x;
      assert [f[0]] + f[1..] == f;
    }
  }

  /** Splitting undoes joining. */
  lemma {:induction false} FieldsOfJoin(fs: seq<string>)
    requires fs != [] && forall i :: 0 <= i < |fs| ==> NoComma(fs[i])
    ensures Fields(Join(fs)) == fs
  {
    if |fs| == 1 {
      FieldsOfPrefix(fs[0], []);
      assert fs[0] + [] == fs[0];
      assert fs == [fs[0]];
    } else {
      var tail := Join(fs[1..]);
      FieldsOfJoin(fs[1..]);
      FieldsOfPrefix(fs[0], "," + tail);
      assert fs[0] + "," + tail == fs[0] + ("," + tail);
      assert ("," + tail)[1..] == tail;
      assert Fields("," + tail) == [[]] + Fields(tail);
      assert fs == [fs[0]] + fs[1..];
    }
  }

  // ---------- the parser ----------

  /** Field `i` is no number, and all fields before it are. */
  predicate IsFirstError(fs: seq<string>, i: nat, e: StoiError)
    requires i < |fs|
  {
    Stoi(fs[i]) == Err(e) && forall j :: 0 <= j < i ==> Stoi(fs[j]).Ok?
  }

  lemma ErrorFurther(fs: seq<string>, e: StoiError)
    requires fs != [] && Stoi(fs[0]).Ok?
    requires exists i :: 0 <= i < |fs[1..]| && IsFirstError(fs[1..], i, e)
    ensures exists i :: 0 <= i < |fs| && IsFirstError(fs, i, e)
  {
    var i :| 0 <= i < |fs[1..]| && IsFirstError(fs[1..], i, e);
    assert forall j :: 0 < j < i + 1 ==> fs[j] == fs[1..][j - 1];
    assert IsFirstError(fs, i + 1, e);
  }

  /** All numbers, or the error of the first field that is none. */
  function StoiAll(fs: seq<string>): (r: Result<seq<int>, StoiError>)
    ensures r.Ok? ==> |r.value| == |fs| && forall i :: 0 <= i < |fs| ==> Stoi(fs[i]) == Ok(r.value[i])
    ensures r.Err? ==> exists i :: 0 <= i < |fs| && IsFirstError(fs, i, r.error)
  {
    if fs == [] then Ok([])
    else
      match Stoi(fs[0])
      case Err(e) =>
        assert IsFirstError(fs, 0, e);
        Err(e)
      case Ok(n) =>
        (match StoiAll(fs[1..])
         case Err(e) =>
           ErrorFurther(fs, e);
           Err(e)
         case Ok(ns) => Ok([n] + ns))
  }

  /** The empty text has no numbers; any other text is split into fields. */
  function Meaning(s: string): Result<seq<int>, StoiError> {
    if s == [] then Ok([]) else StoiAll(Fields(s))
  }

  method BadgeParser(badgeStr: string) returns (r: Result<seq<int>, StoiError>)
    ensures r == Meaning(badgeStr)
  {
    var word := "";
    var rtn: seq<int> := [];
    OpenFieldAtStart(badgeStr);
    for i := 0 to |badgeStr|
      invariant i < |badgeStr| ==> StoiAll(Fields(badgeStr)) == After(rtn, word, badgeStr[i..])
      invariant i == |badgeStr| ==> Meaning(badgeStr) == Ok(rtn)
    {
      var c := badgeStr[i];
      assert badgeStr[i..][1..] == badgeStr[i + 1..];
      OpenFieldStep(rtn, word, badgeStr[i..]);
      if c == ',' {
        var n := Stoi(word);
        if n.Err? {
          return Err(n.error);
        }
        rtn := rtn + [n.value];
        word := "";
      } else {
        word := word + [c];
      }
      if i == |badgeStr| - 1 {
        assert badgeStr[i + 1..] == "";
        OpenFieldAtEnd(rtn, word);
        var n := Stoi(word);
        if n.Err? {
          return Err(n.error);
        }
        rtn := rtn + [n.value];
      }
    }
    r := Ok(rtn);
  }

  /** The result, in the middle of the text: the numbers so far, then those of the open field and of the rest. */
  function After(rtn: seq<int>, word: string, rest: string): Result<seq<int>, StoiError> {
    match StoiAll([word + Fields(rest)[0]] + Fields(rest)[1..])
    case Err(e) => Err(e)
    case Ok(ns) => Ok(rtn + ns)
  }

  lemma OpenFieldAtStart(s: string)
    ensures After([], "", s) == StoiAll(Fields(s))
  {
    var fs := Fields(s);
    assert "" + fs[0] == fs[0];
    assert ["" + fs[0]] + fs[1..] == fs;
    var r := StoiAll(fs);
    assert r.Ok? ==> [] + r.value == r.value;
  }

  lemma OpenFieldAtEnd(rtn: seq<int>, word: string)
    ensures After(rtn, word, "") == match Stoi(word) case Err(e) => Err(e) case Ok(n) => Ok(rtn + [n])
  {
    assert Fields("") == [""] && word + "" == word;
    var fs := [word + Fields("")[0]] + Fields("")[1..];
    assert fs == [word];
    assert fs[1..] == [];
    assert StoiAll(fs[1..]) == Ok([]);
    if Stoi(word).Ok? {
      assert [Stoi(word).value] + [] == [Stoi(word).value];
    }
  }

  /** One character: a comma closes the field, any other character extends it. */
  lemma OpenFieldStep(rtn: seq<int>, word: string, rest: string)
    requires rest != []
    ensures rest[0] != ',' ==> After(rtn, word, rest) == After(rtn, word + [rest[0]], rest[1..])
    ensures rest[0] == ',' && Stoi(word).Err? ==> After(rtn, word, rest) == Err(Stoi(word).error)
    ensures rest[0] == ',' && Stoi(word).Ok? ==>
              After(rtn, word, rest) == After(rtn + [Stoi(word).value], "", rest[1..])
  {
    var fs := Fields(rest[1..]);
    if rest[0] != ',' {
      assert word + ([rest[0]] + fs[0]) == word + [rest[0]] + fs[0];
      assert Fields(rest)[1..] == fs[1..];
    } else {
      OpenFieldAtStart(rest[1..]);
      assert word + Fields(rest)[0] == word;
      assert Fields(rest)[1..] == fs;
      assert ([word] + fs)[1..] == fs;
      if Stoi(word).Ok? && StoiAll(fs).Ok? {
        var n, ns := Stoi(word).value, StoiAll(fs).value;
        assert rtn + ([n] + ns) == rtn + [n] + ns;
      }
    }
  }

  // ---------- what the parser is for ----------

  function Print(ns: seq<int>): string {
    if ns == [] then "" else Join(Map(Decimal, ns))
  }

  /** Parsing a printed list returns it if and only if every number fits an `int`. */
  lemma ParseOfPrint(ns: seq<int>)
    ensures Meaning(Print(ns)) == Ok(ns) <==> forall i :: 0 <= i < |ns| ==> FitsInt(ns[i])
  {
    if ns != [] {
      var fs := Map(Decimal, ns);
      FieldsOfJoin(fs);
      JoinNonempty(fs);
      StoiAllOfDecimals(ns);
    }
  }

  lemma JoinNonempty(fs: seq<string>)
    requires fs != [] && fs[0] != []
    ensures Join(fs) != []
  {
  }

  lemma StoiAllOfDecimals(ns: seq<int>)
    ensures StoiAll(Map(Decimal, ns)) == Ok(ns) <==> forall i :: 0 <= i < |ns| ==> FitsInt(ns[i])
  {
    if forall i :: 0 <= i < |ns| ==> FitsInt(ns[i]) {
      StoiAllFitting(ns);
    }
    if StoiAll(Map(Decimal, ns)) == Ok(ns) {
      forall i | 0 <= i < |ns|
        ensures FitsInt(ns[i])
      {
        assert Stoi(Map(Decimal, ns)[i]) == Ok(ns[i]);
        StoiOfDecimal(ns[i]);
      }
    }
  }

  lemma {:induction false} StoiAllFitting(ns: seq<int>)
    requires forall i :: 0 <= i < |ns| ==> FitsInt(ns[i])
    ensures StoiAll(Map(Decimal, ns)) == Ok(ns)
  {
    if ns != [] {
      var fs := Map(Decimal, ns);
      StoiOfDecimal(ns[0]);
      StoiAllFitting(ns[1..]);
      assert fs == [Decimal(ns[0])] + Map(Decimal, ns[1..]);
      StoiAllCons(Decimal(ns[0]), Map(Decimal, ns[1..]), ns[0], ns[1..]);
      assert ns == [ns[0]] + ns[1..];
    }
  }

  lemma StoiAllCons(f: string, fs: seq<string>, n: int, ns: seq<int>)
    requires Stoi(f) == Ok(n) && StoiAll(fs) == Ok(ns)
    ensures StoiAll([f] + fs) == Ok([n] + ns)
  {
    assert ([f] + fs)[1..] == fs;
  }

  /** A text is accepted exactly when it is empty or every field is a number. */
  lemma AcceptedExactly(s: string)
    ensures Meaning(s).Ok? <==> s == [] || forall i :: 0 <= i < |Fields(s)| ==> Stoi(Fields(s)[i]).Ok?
  {
    var fs := Fields(s);
    var r := StoiAll(fs);
    if r.Err? {
      var i :| 0 <= i < |fs| && IsFirstError(fs, i, r.error);
      assert Stoi(Fields(s)[i]).Err?;
    }
  }

  /** Any empty field is rejected; a trailing comma makes one. */
  lemma EmptyFieldRejected(s: string, i: nat)
    requires s != [] && i < |Fields(s)| && Fields(s)[i] == []
    ensures Meaning(s).Err?
  {
    StoiOfNothing();
  }

  lemma {:induction false} TrailingComma(s: string)
    ensures Fields(s + ",") == Fields(s) + [[]] && Meaning(s + ",").Err?
  {
    TrailingField(s);
    EmptyFieldRejected(s + ",", |Fields(s)|);
  }

  lemma {:induction false} TrailingField(s: string)
    ensures Fields(s + ",") == Fields(s) + [[]]
  {
    if s == [] {
      assert s + "," == ",";
      assert Fields(",") == [[]] + Fields(","[1..]);
    } else {
      assert (s + ",")[1..] == s[1..] + ",";
      TrailingField(s[1..]);
    }
  }
}
