/**
 * Status extraction: turning a log record's `upstream_status` and `status` fields into
 * one integer code (`parse_status_code`), and classifying codes as errors (`is_error`).
 */
module StatusExtraction {
  import opened Wrappers
  import opened PyText

  /**
   * The value of one field of a decoded JSON log record. `Absent` covers both a missing
   * key and JSON `null`, which `dict.get` does not distinguish.
   */
  datatype Field = Absent | Str(s: string) | Num(n: int)

  /** Python truthiness of the field's value. */
  predicate Truthy(f: Field) {
    match f
    case Absent => false
    case Str(s) => s != []
    case Num(n) => n != 0
  }

  /** `str(value)` */
  function PyStr(f: Field): string {
    match f
    case Absent => "None"
    case Str(s) => s
    case Num(n) => DecimalString(n)
  }

  /** `int(value)`; `None` stands for the `ValueError` or `TypeError` it raises. */
  function PyInt(f: Field): Option<int> {
    match f
    case Absent => None
    case Str(s) => ParseInt(s)
    case Num(n) => Some(n)
  }

  /** Three consecutive decimal digits start at position `i` of `s`. */
  predicate TripleAt(s: string, i: int) {
    0 <= i && i + 3 <= |s| && IsDigit(s[i]) && IsDigit(s[i + 1]) && IsDigit(s[i + 2])
  }

  /** `s` contains three consecutive decimal digits somewhere. */
  predicate HasTriple(s: string) {
    exists i | 0 <= i <= |s| - 3 :: TripleAt(s, i)
  }

  /**
   * `re.findall(r"\d{3}", s)`: scanning left to right, a match is taken wherever three
   * digits start, and the scan resumes after it, so matches never overlap.
   */
  function Groups(s: string): (gs: seq<string>)
    ensures forall k :: 0 <= k < |gs| ==> |gs[k]| == 3 && TripleAt(gs[k], 0)
    decreases |s|
  {
    if |s| < 3 then []
    else if TripleAt(s, 0) then [s[..3]] + Groups(s[3..])
    else Groups(s[1..])
  }

  /** The integer value of a three-digit group. */
  function GroupValue(g: string): (v: nat)
    requires |g| == 3 && TripleAt(g, 0)
    ensures v == DigitValue(g[0]) * 100 + DigitValue(g[1]) * 10 + DigitValue(g[2])
    ensures v <= 999
  {
    assert g[..2][..1] == g[..1] && g[..1][..0] == [];
    assert DigitsValue(g[..1]) == DigitValue(g[0]);
    assert DigitsValue(g[..2]) == DigitValue(g[0]) * 10 + DigitValue(g[1]);
    DigitsValue(g)
  }

  /**
   * `parse_status_code(upstream_status, overall_status)`: the last three-digit group of a
   * truthy upstream status, else `int(status)`, else 0. It is total.
   */
  function ParseStatusCode(upstream: Field, overall: Field): (code: int)
    ensures Truthy(upstream) && HasTriple(PyStr(upstream)) ==> 0 <= code <= 999
    ensures !(Truthy(upstream) && HasTriple(PyStr(upstream))) ==>
      code == (match PyInt(overall) case Some(v) => v case None => 0)
  {
    var gs := if Truthy(upstream) then Groups(PyStr(upstream)) else [];
    GroupsNonEmptyIff(PyStr(upstream));
    if gs != [] then GroupValue(gs[|gs| - 1])
    else match PyInt(overall) case Some(v) => v case None => 0
  }

  /** `is_error(code)` */
  predicate IsError(code: int) {
    500 <= code <= 599
  }

  /** findall finds a match exactly when three consecutive digits occur. */
  lemma {:induction false} GroupsNonEmptyIff(s: string)
    ensures Groups(s) != [] <==> HasTriple(s)
    decreases |s|
  {
    if |s| < 3 {
    } else if TripleAt(s, 0) {
    } else {
      GroupsNonEmptyIff(s[1..]);
      if HasTriple(s) {
        var i :| 0 <= i <= |s| - 3 && TripleAt(s, i);
        assert i >= 1;
        assert s[1..][i - 1] == s[i] && s[1..][i] == s[i + 1] && s[1..][i + 1] == s[i + 2];
        assert TripleAt(s[1..], i - 1);
      }
      if HasTriple(s[1..]) {
        var i :| 0 <= i <= |s[1..]| - 3 && TripleAt(s[1..], i);
        assert s[1..][i] == s[i + 1] && s[1..][i + 1] == s[i + 2] && s[1..][i + 2] == s[i + 3];
        assert TripleAt(s, i + 1);
      }
    }
  }

  lemma {:induction false} GroupsOfNoDigits(s: string)
    requires NoDigits(s)
    ensures Groups(s) == []
    decreases |s|
  {
    if |s| >= 3 {
      GroupsOfNoDigits(s[1..]);
    }
  }

  /**
   * A non-digit at the end of `a` is a barrier the scan cannot match across, so the
   * groups of `a + b` are those of `a` followed by those of `b`.
   */
  lemma {:induction false} GroupsSplit(a: string, b: string)
    requires a != [] && !IsDigit(a[|a| - 1])
    ensures Groups(a + b) == Groups(a) + Groups(b)
    decreases |a|
  {
    if TripleAt(a + b, 0) {
      GroupsSplitTake(a, b);
      GroupsSplit(a[3..], b);
    } else {
      GroupsSplitSkip(a, b);
      if |a| > 1 {
        GroupsSplit(a[1..], b);
      }
    }
  }

  /** A match at the front of `a + b` lies inside `a` when `a` ends in a non-digit. */
  lemma GroupsSplitTake(a: string, b: string)
    requires a != [] && !IsDigit(a[|a| - 1]) && TripleAt(a + b, 0)
    ensures |a| >= 4 && !IsDigit(a[3..][|a[3..]| - 1])
    ensures Groups(a + b) == [a[..3]] + Groups(a[3..] + b)
    ensures Groups(a) == [a[..3]] + Groups(a[3..])
  {
    var s := a + b;
    assert |a| >= 4 && a[..3] == s[..3];
    GroupsTake(s);
    GroupsTake(a);
    assert s[3..] == a[3..] + b;
  }

  /** Without a match at the front of `a + b`, the scan moves one character into `a`. */
  lemma GroupsSplitSkip(a: string, b: string)
    requires a != [] && !IsDigit(a[|a| - 1]) && !TripleAt(a + b, 0)
    ensures |a| == 1 ==> Groups(a + b) == Groups(b) && Groups(a) == []
    ensures |a| > 1 ==> Groups(a + b) == Groups(a[1..] + b) && Groups(a) == Groups(a[1..])
  {
    var s := a + b;
    assert !TripleAt(a, 0);
    GroupsSkip(s);
    GroupsSkip(a);
    assert s[1..] == a[1..] + b;
  }

  /** The scan takes a match that starts at the front. */
  lemma GroupsTake(s: string)
    requires TripleAt(s, 0)
    ensures Groups(s) == [s[..3]] + Groups(s[3..])
  {
  }

  /** Without a match at the front, the scan moves one character on. */
  lemma GroupsSkip(s: string)
    requires s != [] && !TripleAt(s, 0)
    ensures Groups(s) == Groups(s[1..])
  {
  }

  /** A three-digit status code such as "502". */
  predicate IsCode(c: string) {
    |c| == 3 && TripleAt(c, 0)
  }

  /** How nginx writes the statuses of a chain of upstream attempts: `"502, 504, 200"`. */
  function JoinCodes(codes: seq<string>, sep: string): string
    requires codes != []
  {
    if |codes| == 1 then codes[0] else codes[0] + sep + JoinCodes(codes[1..], sep)
  }

  /** The groups of a joined chain are exactly its codes, in order. */
  lemma {:induction false} GroupsOfJoinCodes(codes: seq<string>, sep: string)
    requires codes != [] && forall k :: 0 <= k < |codes| ==> IsCode(codes[k])
    requires sep != [] && NoDigits(sep)
    ensures Groups(JoinCodes(codes, sep)) == codes
  {
    var c := codes[0];
    assert Groups(c) == [c] by {
      assert c[..3] == c;
      assert Groups(c[3..]) == [];
    }
    if |codes| > 1 {
      var head := c + sep;
      assert JoinCodes(codes, sep) == head + JoinCodes(codes[1..], sep);
      GroupsSplit(head, JoinCodes(codes[1..], sep));
      assert head[..3] == c && TripleAt(head, 0);
      assert head[3..] == sep;
      GroupsOfNoDigits(sep);
      assert Groups(head) == [c];
      GroupsOfJoinCodes(codes[1..], sep);
    }
  }

  /**
   * For an upstream chain written the way nginx writes it, the code is the status of the
   * final attempt, whatever `status` says.
   */
  lemma LastAttemptWins(codes: seq<string>, sep: string, overall: Field)
    requires codes != [] && forall k :: 0 <= k < |codes| ==> IsCode(codes[k])
    requires sep != [] && NoDigits(sep)
    ensures IsCode(codes[|codes| - 1])
    ensures ParseStatusCode(Str(JoinCodes(codes, sep)), overall) == GroupValue(codes[|codes| - 1])
  {
    GroupsOfJoinCodes(codes, sep);
  }

  /**
   * A request counts as an error exactly when the final attempt of its upstream chain
   * has a status starting with 5, whatever the earlier attempts and `status` say.
   */
  lemma FinalAttemptDecidesError(codes: seq<string>, sep: string, overall: Field)
    requires codes != [] && forall k :: 0 <= k < |codes| ==> IsCode(codes[k])
    requires sep != [] && NoDigits(sep)
    ensures IsCode(codes[|codes| - 1])
    ensures IsError(ParseStatusCode(Str(JoinCodes(codes, sep)), overall)) <==> codes[|codes| - 1][0] == '5'
  {
    LastAttemptWins(codes, sep, overall);
    var c := codes[|codes| - 1];
    assert DigitValue(c[0]) == 5 <==> c[0] == '5';
  }

  /**
   * Whatever precedes it, a part of the upstream status that follows a non-digit and holds
   * three consecutive digits decides the code on its own.
   */
  lemma SuffixDecides(a: string, b: string, overall: Field)
    requires a != [] && !IsDigit(a[|a| - 1]) && HasTriple(b)
    ensures ParseStatusCode(Str(a + b), overall) == ParseStatusCode(Str(b), overall)
  {
    GroupsSplit(a, b);
    GroupsNonEmptyIff(b);
    var gb := Groups(b);
    var gs := Groups(a + b);
    assert gs == Groups(a) + gb && gb != [];
    assert gs[|gs| - 1] == gb[|gb| - 1];
    CodeOfLastGroup(a + b, overall);
    CodeOfLastGroup(b, overall);
  }

  /** A string status with a match reads as its last match. */
  lemma CodeOfLastGroup(s: string, overall: Field)
    requires Groups(s) != []
    ensures ParseStatusCode(Str(s), overall) == GroupValue(Groups(s)[|Groups(s)| - 1])
  {
    assert |s| >= 3;
  }

  /** A chain that ends in a failed attempt is an error: `"200, 502"` gives 502. */
  lemma ChainEndingInError(overall: Field)
    ensures ParseStatusCode(Str("200, 502"), overall) == 502
  {
    assert JoinCodes(["200", "502"], ", ") == "200, 502";
    LastAttemptWins(["200", "502"], ", ", overall);
  }

  /** A chain that recovered is a success: `"502, 200"` gives 200. */
  lemma ChainEndingInSuccess(overall: Field)
    ensures ParseStatusCode(Str("502, 200"), overall) == 200
  {
    assert JoinCodes(["502", "200"], ", ") == "502, 200";
    LastAttemptWins(["502", "200"], ", ", overall);
  }

  /** Groups of attempts separated by `" : "` end the same way: `"502, 504 : 200"` gives 200. */
  lemma ColonSeparatedChain(overall: Field)
    ensures ParseStatusCode(Str("502, 504 : 200"), overall) == 200
  {
    var a, b := "502, 504 : ", "200";
    assert a + b == "502, 504 : 200";
    assert a[|a| - 1] == ' ';
    assert TripleAt(b, 0);
    SuffixDecides(a, b, overall);
    SingleCode(overall);
  }

  /** A lone three-digit upstream status is the code: `"200"` gives 200. */
  lemma SingleCode(overall: Field)
    ensures ParseStatusCode(Str("200"), overall) == 200
  {
    var b := "200";
    assert TripleAt(b, 0);
    assert b[..3] == b && b[3..] == [];
    assert Groups(b) == [b];
    CodeOfLastGroup(b, overall);
  }

  /** Matches are consecutive three-digit chunks, not maximal runs: "12345678" gives 456. */
  lemma ChunkingExample(overall: Field)
    ensures Groups("12345678") == ["123", "456"]
    ensures ParseStatusCode(Str("12345678"), overall) == 456
  {
    var s := "12345678";
    assert TripleAt(s, 0) && s[..3] == "123" && s[3..] == "45678";
    assert TripleAt(s[3..], 0) && s[3..][..3] == "456" && s[3..][3..] == "78";
  }

  /** Without a usable upstream status the code falls back to `int(status)`. */
  lemma FallbackToStatus()
    ensures ParseStatusCode(Str(""), Str("503")) == 503
    ensures ParseStatusCode(Str("-"), Num(404)) == 404
  {
    assert DecimalString(503) == "503" by {
      assert Digits(50) == "50";
    }
    ParseIntOfDecimalString(503);
    assert !HasTriple("-");
  }

  /** `int()` ignores surrounding whitespace; a falsy upstream status (0) is skipped. */
  lemma FallbackStripsSpace()
    ensures ParseStatusCode(Num(0), Str(" 200\n")) == 200
  {
    assert DecimalString(200) == "200" by {
      assert Digits(20) == "20";
    }
    ParseIntOfDecimalString(200);
    assert StripIntSpace(" 200\n") == "200" by {
      assert " 200\n"[1..] == "200\n";
      assert "200\n"[..3] == "200";
    }
  }

  /**
   * A `status` of more digits than `int()` converts gives the sentinel 0 when the
   * upstream status holds no three consecutive digits.
   */
  lemma OverlongStatusIsZero(upstream: Field, digits: string)
    requires !(Truthy(upstream) && HasTriple(PyStr(upstream)))
    requires |digits| > MaxStrDigits && forall i :: 0 <= i < |digits| ==> IsDigit(digits[i])
    ensures ParseStatusCode(upstream, Str(digits)) == 0
  {
    ParseIntPastDigitLimit(digits);
  }

  /** When neither field yields a number the result is the sentinel 0. */
  lemma FallbackToZero()
    ensures ParseStatusCode(Absent, Absent) == 0
    ensures ParseStatusCode(Str("abc"), Str("n/a")) == 0
  {
    assert !HasTriple("abc");
    assert NoDigits("n/a");
  }
}
