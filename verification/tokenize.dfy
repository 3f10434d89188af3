/** The topology line's boundary list: a comma-separated list of residue
    numbers, split into fields and read one integer per field. */
module Tokenize {

  const IntMin: int := -0x8000_0000
  const IntMax: int := 0x7fff_ffff

  /** std::string::find_first_of(",", i); |s| stands for npos. */
  function FirstComma(s: string, i: nat): (r: nat)
    ensures i <= |s| ==> i <= r <= |s|
    ensures i > |s| ==> r == |s|
    ensures forall k :: i <= k < r ==> s[k] != ','
    ensures r < |s| ==> s[r] == ','
    decreases |s| - i
  {
    if i >= |s| then |s|
    else if s[i] == ',' then i
    else FirstComma(s, i + 1)
  }

  /** std::string::find_first_not_of(",", i); |s| stands for npos. */
  function FirstNotComma(s: string, i: nat): (r: nat)
    ensures i <= |s| ==> i <= r <= |s|
    ensures i > |s| ==> r == |s|
    ensures forall k :: i <= k < r ==> s[k] == ','
    ensures r < |s| ==> s[r] != ','
    decreases |s| - i
  {
    if i >= |s| then |s|
    else if s[i] != ',' then i
    else FirstNotComma(s, i + 1)
  }

  predicate NoComma(s: string) {
    forall k :: 0 <= k < |s| ==> s[k] != ','
  }

  /** The maximal runs of non-comma characters of s, in order. */
  function Fields(s: string): (fs: seq<string>)
    ensures forall k :: 0 <= k < |fs| ==> fs[k] != [] && NoComma(fs[k])
    decreases |s|
  {
    if s == [] then []
    else if s[0] == ',' then Fields(s[1..])
    else
      var n := FirstComma(s, 0);
      [s[..n]] + Fields(s[n..])
  }

  predicate IsSpace(c: char) {
    c == ' ' || c == '\t' || c == '\n' || c == '\r' || c == '\U{000B}' || c == '\U{000C}'
  }

  predicate IsDigit(c: char) {
    '0' as int <= c as int <= '9' as int
  }

  function SkipSpaces(s: string): (r: string)
    ensures |r| <= |s| && r == s[|s| - |r|..]
    ensures r == [] || !IsSpace(r[0])
  {
    if s != [] && IsSpace(s[0]) then SkipSpaces(s[1..]) else s
  }

  /** Length of the run of decimal digits at the start of s. */
  function DigitRun(s: string): (n: nat)
    ensures n <= |s|
    ensures forall k :: 0 <= k < n ==> IsDigit(s[k])
    ensures n < |s| ==> !IsDigit(s[n])
  {
    if s != [] && IsDigit(s[0]) then 1 + DigitRun(s[1..]) else 0
  }

  /** Value of a string of decimal digits, most significant first. */
  function DigitsValue(ds: string): (v: nat)
    requires forall k :: 0 <= k < |ds| ==> IsDigit(ds[k])
  {
    if ds == [] then 0
    else
      var last := ds[|ds| - 1];
      assert IsDigit(last);
      10 * DigitsValue(ds[..|ds| - 1]) + (last as int - '0' as int)
  }

  function Clamp(v: int): (r: int)
    ensures IntMin <= r <= IntMax
    ensures IntMin <= v <= IntMax ==> r == v
    ensures v > IntMax ==> r == IntMax
    ensures v < IntMin ==> r == IntMin
  {
    if v > IntMax then IntMax else if v < IntMin then IntMin else v
  }

  /**
   * Extraction of an int from a field with operator>>: leading white space
   * is skipped, an optional sign and the longest run of digits are read, and
   * the rest is ignored. No digits gives 0; a value outside the 32-bit range
   * gives the nearest bound.
   */
  function ParseInt(field: string): (v: int)
    ensures IntMin <= v <= IntMax
  {
    var t := SkipSpaces(field);
    var negative := t != [] && t[0] == '-';
    var body := if t != [] && (t[0] == '-' || t[0] == '+') then t[1..] else t;
    var magnitude: int := Magnitude(body);
    Clamp(if negative then -magnitude else magnitude)
  }

  /** The value of the longest run of digits at the start of s. */
  function Magnitude(s: string): nat {
    DigitsValue(s[..DigitRun(s)])
  }

  function ParseAll(fs: seq<string>): (vs: seq<int>)
    ensures |vs| == |fs|
    ensures forall k :: 0 <= k < |fs| ==> vs[k] == ParseInt(fs[k])
  {
    if fs == [] then [] else [ParseInt(fs[0])] + ParseAll(fs[1..])
  }

  /** What tokenize appends for the string s. */
  function Tokens(s: string): seq<int> {
    ParseAll(Fields(s))
  }

  lemma ParseAllAppend(fs: seq<string>, gs: seq<string>)
    ensures ParseAll(fs + gs) == ParseAll(fs) + ParseAll(gs)
  {
  }

  /** Leading commas produce no field. */
  lemma {:induction false} FieldsSkipCommas(s: string, i: nat)
    requires i <= |s|
    ensures Fields(s[i..]) == Fields(s[FirstNotComma(s, i)..])
    decreases |s| - i
  {
    if i < |s| && s[i] == ',' {
      assert s[i..][1..] == s[i + 1..];
      FieldsSkipCommas(s, i + 1);
    }
  }

  /** A field starting at i runs up to the next comma. */
  lemma FieldsAtRun(s: string, i: nat)
    requires i < |s| && s[i] != ','
    ensures Fields(s[i..]) == [s[i..FirstComma(s, i)]] + Fields(s[FirstComma(s, i)..])
  {
    var t := s[i..];
    FirstCommaShift(s, i, 0);
    assert t[..FirstComma(t, 0)] == s[i..FirstComma(s, i)];
    assert t[FirstComma(t, 0)..] == s[FirstComma(s, i)..];
  }

  lemma {:induction false} FirstCommaShift(s: string, i: nat, k: nat)
    requires i + k <= |s|
    ensures FirstComma(s[i..], k) + i == FirstComma(s, i + k)
    decreases |s| - i - k
  {
    if i + k < |s| && s[i + k] != ',' {
      FirstCommaShift(s, i, k + 1);
    }
  }

  /** The comma-free prefix of a string is its first field. */
  lemma {:induction false} FieldsOfRun(s: string, t: string)
    requires s != [] && NoComma(s)
    requires t == [] || t[0] == ','
    ensures Fields(s + t) == [s] + Fields(t)
  {
    var st := s + t;
    var n := FirstComma(st, 0);
    assert forall k :: 0 <= k < |s| ==> st[k] == s[k];
    assert |s| < |st| ==> st[|s|] == ',';
    assert n == |s|;
    assert st[..n] == s;
    assert st[n..] == t;
  }

  /** One step of tokenize: the field at i, then whatever follows the commas after it. */
  lemma TokensStep(s: string, i: nat)
    requires i < |s| && s[i] != ','
    ensures Tokens(s[i..]) == [ParseInt(s[i..FirstComma(s, i)])] + Tokens(s[FirstNotComma(s, FirstComma(s, i))..])
  {
    var pos := FirstComma(s, i);
    FieldsAtRun(s, i);
    FieldsSkipCommas(s, pos);
    ParseAllAppend([s[i..pos]], Fields(s[pos..]));
  }

  /** Splitting at a comma splits the fields. */
  lemma {:induction false} FieldsConcat(s: string, t: string)
    ensures Fields(s + [','] + t) == Fields(s) + Fields(t)
    decreases |s|
  {
    var st := s + [','] + t;
    if s == [] {
      assert st[1..] == t;
    } else if s[0] == ',' {
      assert st[1..] == s[1..] + [','] + t;
      FieldsConcat(s[1..], t);
    } else {
      var n := FirstComma(s, 0);
      assert s[..n] + s[n..] == s;
      if n == |s| {
        FieldsOfRun(s, [','] + t);
        assert st == s + ([','] + t);
        assert Fields([','] + t) == Fields(t) by {
          assert ([','] + t)[1..] == t;
        }
        assert Fields(s) == [s] + Fields([]) by {
          FieldsOfRun(s, []);
          assert s + [] == s;
        }
      } else {
        var rest := s[n..];
        FieldsOfRun(s[..n], rest + [','] + t);
        assert st == s[..n] + (rest + [','] + t);
        FieldsConcat(rest, t);
        FieldsOfRun(s[..n], rest);
      }
    }
  }

  /** Joins non-empty comma-free fields with single commas. */
  function Join(fs: seq<string>): string {
    if fs == [] then []
    else if |fs| == 1 then fs[0]
    else fs[0] + [','] + Join(fs[1..])
  }

  /**
   * Round trip: the fields of a comma-joined list of non-empty comma-free
   * strings are exactly those strings, so one token is read per field, in
   * order.
   */
  lemma {:induction false} FieldsOfJoin(fs: seq<string>)
    requires forall k :: 0 <= k < |fs| ==> fs[k] != [] && NoComma(fs[k])
    ensures Fields(Join(fs)) == fs
  {
    if |fs| == 1 {
      FieldsOfRun(fs[0], []);
      assert fs[0] + [] == fs[0];
    } else if |fs| > 1 {
      FieldsOfJoin(fs[1..]);
      FieldsConcat(fs[0], Join(fs[1..]));
      FieldsOfRun(fs[0], []);
      assert fs[0] + [] == fs[0];
      assert fs == [fs[0]] + fs[1..];
    }
  }

  /** Leading, trailing and repeated commas add no token. */
  lemma ExtraCommas(s: string, t: string)
    ensures Tokens([','] + s) == Tokens(s)
    ensures Tokens(s + [',']) == Tokens(s)
    ensures Tokens(s + [','] + [','] + t) == Tokens(s) + Tokens(t)
  {
    assert ([','] + s)[1..] == s;
    FieldsConcat(s, []);
    assert s + [','] + [] == s + [','];
    FieldsConcat(s, [','] + t);
    assert s + [','] + ([','] + t) == s + [','] + [','] + t;
    assert ([','] + t)[1..] == t;
    ParseAllAppend(Fields(s), Fields(t));
    ParseAllAppend(Fields(s), []);
  }

  /**
   * tokenize(str, tokens): appends one integer per maximal run of non-comma
   * characters of str, in order.
   */
  method Tokenize(str: string, tokens: seq<int>) returns (r: seq<int>)
    ensures r == tokens + Tokens(str)
  {
    r := tokens;
    var lastPos := FirstNotComma(str, 0);
    var pos := FirstComma(str, lastPos);
    FieldsSkipCommas(str, 0);
    assert str[0..] == str;
    while pos < |str| || lastPos < |str|
      invariant lastPos <= pos <= |str|
      invariant lastPos < |str| ==> str[lastPos] != ',' && pos == FirstComma(str, lastPos)
      invariant lastPos == |str| ==> pos == |str|
      invariant r + Tokens(str[lastPos..]) == tokens + Tokens(str)
      decreases |str| - lastPos
    {
      var field := str[lastPos..pos];
      var next := FirstNotComma(str, pos);
      TokensStep(str, lastPos);
      AppendStep(r, ParseInt(field), Tokens(str[next..]));
      r := r + [ParseInt(field)];
      lastPos := next;
      pos := FirstComma(str, lastPos);
    }
    assert str[lastPos..] == [];
    assert Tokens([]) == [];
  }

  lemma AppendStep<T>(r: seq<T>, x: T, rest: seq<T>)
    ensures r + ([x] + rest) == (r + [x]) + rest
  {
  }
}
