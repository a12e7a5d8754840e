/** The port strings of the API: the library routines the parsers rely on, the two
    parsers of the webhook package, the parser of the provider package, and the
    theorems that make them agree with each other. */
module PortGrammar {
  import opened Wrappers

  // ---------------------------------------------------------------------------
  // strings.Split, strings.Join, strings.TrimSpace, strconv.Atoi
  // ---------------------------------------------------------------------------

  /** strings.Split for a one-character separator: never empty. */
  function Split(s: string, sep: char): (parts: seq<string>)
    ensures |parts| >= 1
  {
    if s == "" then [""]
    else
      var rest := Split(s[1..], sep);
      if s[0] == sep then [""] + rest
      else [[s[0]] + rest[0]] + rest[1..]
  }

  /** strings.Join for a one-character separator. */
  function Join(parts: seq<string>, sep: char): string
  {
    if parts == [] then ""
    else if |parts| == 1 then parts[0]
    else parts[0] + [sep] + Join(parts[1..], sep)
  }

  /** unicode.IsSpace. */
  predicate IsSpace(c: char)
  {
    || '\U{0009}' <= c <= '\U{000D}' || c == ' ' || c == '\U{0085}' || c == '\U{00A0}'
    || c == '\U{1680}' || '\U{2000}' <= c <= '\U{200A}' || c == '\U{2028}' || c == '\U{2029}'
    || c == '\U{202F}' || c == '\U{205F}' || c == '\U{3000}'
  }

  function TrimLeft(s: string): string
  {
    if s != "" && IsSpace(s[0]) then TrimLeft(s[1..]) else s
  }

  function TrimRight(s: string): string
  {
    if s != "" && IsSpace(s[|s| - 1]) then TrimRight(s[..|s| - 1]) else s
  }

  function TrimSpace(s: string): string
  {
    TrimRight(TrimLeft(s))
  }

  predicate IsDigit(c: char)
  {
    '0' <= c <= '9'
  }

  predicate AllDigits(s: string)
  {
    forall i :: 0 <= i < |s| ==> IsDigit(s[i])
  }

  function DigitsValue(s: string): nat
    requires AllDigits(s)
  {
    if s == "" then 0
    else 10 * DigitsValue(s[..|s| - 1]) + (s[|s| - 1] as int - '0' as int)
  }

  const MAX_INT64 := 0x7FFF_FFFF_FFFF_FFFF

  function StripSign(s: string): string
  {
    if s != "" && (s[0] == '+' || s[0] == '-') then s[1..] else s
  }

  /** strconv.Atoi: an optional sign, at least one decimal digit, and a value that
      fits in 64 bits. */
  function Atoi(s: string): Option<int>
  {
    var digits := StripSign(s);
    if digits == "" || !AllDigits(digits) then None
    else
      var magnitude: int := DigitsValue(digits);
      if s[0] == '-' then
        if magnitude <= MAX_INT64 + 1 then Some(-magnitude) else None
      else
        if magnitude <= MAX_INT64 then Some(magnitude) else None
  }

  // ---------------------------------------------------------------------------
  // ParsePortRange and the two validatePort functions
  // ---------------------------------------------------------------------------

  const MAX_PORT := 65535

  datatype PortRange = PortRange(start: int, end: int)

  datatype PortError = EmptyPort | BadFormat | NotANumber | OutOfRange | Reversed

  predicate InPortBounds(n: int)
  {
    0 <= n <= MAX_PORT
  }

  /** The guard both parsers share: a range is written with a dash that is not the
      first character. */
  predicate LooksLikeRange(port: string)
  {
    '-' in port && port[0] != '-'
  }

  function ParseRangeForm(port: string): Result<PortRange, PortError>
  {
    var parts := Split(port, '-');
    if |parts| != 2 then Failure(BadFormat)
    else
      var start := Atoi(parts[0]);
      if start.None? then Failure(NotANumber)
      else
        var end := Atoi(parts[1]);
        if end.None? then Failure(NotANumber)
        else if !InPortBounds(start.value) then Failure(OutOfRange)
        else if !InPortBounds(end.value) then Failure(OutOfRange)
        else if start.value > end.value then Failure(Reversed)
        else Success(PortRange(start.value, end.value))
  }

  function ParsePortRange(port: string): (r: Result<PortRange, PortError>)
    ensures r.Success? ==> 0 <= r.value.start <= r.value.end <= 65535
  {
    if port == "" then Failure(EmptyPort)
    else if LooksLikeRange(port) then ParseRangeForm(port)
    else
      var p := Atoi(port);
      if p.None? then Failure(NotANumber)
      else if !InPortBounds(p.value) then Failure(OutOfRange)
      else Success(PortRange(p.value, p.value))
  }

  /** One trimmed item of either validatePort function. */
  predicate ValidPortItem(item: string)
  {
    if LooksLikeRange(item) then
      var parts := Split(item, '-');
      |parts| == 2 &&
      var start, end := Atoi(parts[0]), Atoi(parts[1]);
      && start.Some? && end.Some?
      && InPortBounds(start.value) && InPortBounds(end.value)
      && start.value <= end.value
    else
      var p := Atoi(item);
      p.Some? && InPortBounds(p.value)
  }

  /** validatePort of the webhook package: a single item, an empty string is fine. */
  predicate ValidatePort(port: string)
  {
    port == "" || ValidPortItem(TrimSpace(port))
  }

  /** validatePort of the provider package: a comma-separated list of items. */
  predicate ProviderValidatePort(port: string)
  {
    port == "" ||
    forall i :: 0 <= i < |Split(port, ',')| ==> ValidPortItem(TrimSpace(Split(port, ',')[i]))
  }

  /** The port numbers a provider port string stands for. */
  ghost predicate Denotes(ports: string, n: int)
  {
    exists i :: 0 <= i < |Split(ports, ',')| && ItemDenotes(Split(ports, ',')[i], n)
  }

  ghost predicate ItemDenotes(item: string, n: int)
  {
    var r := ParsePortRange(TrimSpace(item));
    r.Success? && r.value.start <= n <= r.value.end
  }

  // ---------------------------------------------------------------------------
  // Split and Join
  // ---------------------------------------------------------------------------

  lemma {:induction false} SplitWithout(s: string, sep: char)
    requires sep !in s
    ensures Split(s, sep) == [s]
  {
    if s != "" {
      SplitWithout(s[1..], sep);
      assert [s[0]] + s[1..] == s;
    }
  }

  lemma {:induction false} SplitAtFirst(a: string, sep: char, b: string)
    requires sep !in a
    ensures Split(a + [sep] + b, sep) == [a] + Split(b, sep)
  {
    var s := a + [sep] + b;
    if a == "" {
      assert s[1..] == b;
    } else {
      SplitAtFirst(a[1..], sep, b);
      assert s[1..] == a[1..] + [sep] + b;
      assert [s[0]] + a[1..] == a;
    }
  }

  lemma {:induction false} SplitOfJoin(parts: seq<string>, sep: char)
    requires parts != []
    requires forall i :: 0 <= i < |parts| ==> sep !in parts[i]
    ensures Split(Join(parts, sep), sep) == parts
  {
    SplitWithout(parts[0], sep);
    if |parts| > 1 {
      SplitOfJoin(parts[1..], sep);
      SplitAtFirst(parts[0], sep, Join(parts[1..], sep));
    }
  }

  /** Splitting cuts at every separator and loses nothing. */
  lemma {:induction false} JoinOfSplit(s: string, sep: char)
    ensures Join(Split(s, sep), sep) == s
    ensures forall i :: 0 <= i < |Split(s, sep)| ==> sep !in Split(s, sep)[i]
  {
    if s != "" {
      JoinOfSplit(s[1..], sep);
      var rest := Split(s[1..], sep);
      assert s == [s[0]] + s[1..];
      if s[0] == sep {
        assert ([""] + rest)[1..] == rest;
      } else {
        assert ([[s[0]] + rest[0]] + rest[1..])[1..] == rest[1..];
      }
    }
  }

  /** The space characters of Go: six in ASCII, two in Latin-1, and those of Unicode. */
  lemma {:induction false} SpaceCodes(c: char)
    ensures IsSpace(c) <==>
            || c as int in {9, 10, 11, 12, 13, 32} || c as int in {0x85, 0xA0}
            || c as int in {0x1680, 0x2028, 0x2029, 0x202F, 0x205F, 0x3000} || 0x2000 <= c as int <= 0x200A
  {
  }

  /** Trimming takes off exactly the spaces at both ends. */
  lemma {:induction false} TrimExactly(s: string) returns (i: nat, j: nat)
    ensures i <= j <= |s| && TrimSpace(s) == s[i..j]
    ensures forall k :: 0 <= k < i || j <= k < |s| ==> IsSpace(s[k])
    ensures i < j ==> !IsSpace(s[i]) && !IsSpace(s[j - 1])
  {
    i := TrimLeftAt(s);
    var j' := TrimRightAt(s[i..]);
    j := i + j';
    assert s[i..][..j'] == s[i..j];
    assert forall k :: j <= k < |s| ==> s[k] == s[i..][k - i];
  }

  lemma {:induction false} TrimLeftAt(s: string) returns (i: nat)
    ensures i <= |s| && TrimLeft(s) == s[i..] && (forall k :: 0 <= k < i ==> IsSpace(s[k]))
    ensures i < |s| ==> !IsSpace(s[i])
  {
    i := 0;
    if s != "" && IsSpace(s[0]) {
      var n := TrimLeftAt(s[1..]);
      i := n + 1;
      assert s[1..][n..] == s[i..];
      assert forall k :: 1 <= k < i ==> s[k] == s[1..][k - 1];
    }
  }

  lemma {:induction false} TrimRightAt(s: string) returns (j: nat)
    ensures j <= |s| && TrimRight(s) == s[..j] && (forall k :: j <= k < |s| ==> IsSpace(s[k]))
    ensures j > 0 ==> !IsSpace(s[j - 1])
  {
    j := |s|;
    if s != "" && IsSpace(s[|s| - 1]) {
      j := TrimRightAt(s[..|s| - 1]);
      assert s[..|s| - 1][..j] == s[..j];
    }
  }

  /** A string splits into exactly two pieces when it holds the separator exactly once. */
  lemma {:induction false} SplitInTwo(s: string, sep: char) returns (i: int)
    requires |Split(s, sep)| == 2
    ensures 0 <= i < |s| && s[i] == sep
    ensures sep !in s[..i] && sep !in s[i + 1..]
    ensures Split(s, sep) == [s[..i], s[i + 1..]]
  {
    i := FirstIndex(s, sep);
    if i == |s| {
      SplitWithout(s, sep);
    } else {
      assert s == s[..i] + [sep] + s[i + 1..];
      SplitAtFirst(s[..i], sep, s[i + 1..]);
      var j := FirstIndex(s[i + 1..], sep);
      if j < |s[i + 1..]| {
        var t := s[i + 1..];
        assert t == t[..j] + [sep] + t[j + 1..];
        SplitAtFirst(t[..j], sep, t[j + 1..]);
        assert false;
      }
      SplitWithout(s[i + 1..], sep);
    }
  }

  lemma {:induction false} FirstIndex(s: string, sep: char) returns (i: nat)
    ensures i <= |s| && sep !in s[..i]
    ensures i < |s| ==> s[i] == sep
  {
    i := 0;
    while i < |s| && s[i] != sep
      invariant i <= |s| && sep !in s[..i]
    {
      i := i + 1;
    }
  }

  // ---------------------------------------------------------------------------
  // What ParsePortRange accepts
  // ---------------------------------------------------------------------------

  /** An unsigned or plus-signed decimal numeral. */
  predicate Numeral(s: string)
  {
    var digits := if s != "" && s[0] == '+' then s[1..] else s;
    digits != "" && AllDigits(digits)
  }

  function NumeralValue(s: string): nat
    requires Numeral(s)
  {
    DigitsValue(if s[0] == '+' then s[1..] else s)
  }

  /** A dash followed by zeros only: the one signed form below zero that is in bounds. */
  predicate NegativeZero(s: string)
  {
    |s| >= 2 && s[0] == '-' && AllDigits(s[1..]) && DigitsValue(s[1..]) == 0
  }

  predicate PortNumeral(s: string)
  {
    Numeral(s) && NumeralValue(s) <= MAX_PORT
  }

  lemma {:induction false} AtoiOfPortNumeral(s: string)
    ensures PortNumeral(s) ==> Atoi(s) == Some(NumeralValue(s))
    ensures '-' !in s ==> (PortNumeral(s) <==> Atoi(s).Some? && InPortBounds(Atoi(s).value))
    ensures s != "" && s[0] == '-' ==> (NegativeZero(s) <==> Atoi(s).Some? && InPortBounds(Atoi(s).value))
  {
    if s != "" && s[0] != '+' && s[0] != '-' {
      assert StripSign(s) == s;
    }
  }

  lemma {:induction false} NumeralHasNoDash(s: string)
    requires Numeral(s)
    ensures '-' !in s
  {
  }

  /** The exact language: a port numeral, or minus zero, or two port numerals in order
      around a dash. */
  ghost predicate PortExpression(p: string, r: PortRange)
  {
    || (PortNumeral(p) && r.start == r.end == NumeralValue(p))
    || (NegativeZero(p) && r.start == r.end == 0)
    || (exists a: string, b: string :: RangeExpression(p, a, b, r))
  }

  predicate RangeExpression(p: string, a: string, b: string, r: PortRange)
  {
    && p == a + ['-'] + b && PortNumeral(a) && PortNumeral(b)
    && r.start == NumeralValue(a) <= r.end == NumeralValue(b)
  }

  lemma {:induction false} ParseAcceptsExactly(p: string, r: PortRange)
    ensures ParsePortRange(p) == Success(r) <==> PortExpression(p, r)
  {
    if ParsePortRange(p) == Success(r) {
      ParseIsExpression(p, r);
    }
    if PortExpression(p, r) {
      ExpressionParses(p, r);
    }
  }

  lemma {:induction false} ParseIsExpression(p: string, r: PortRange)
    requires ParsePortRange(p) == Success(r)
    ensures PortExpression(p, r)
  {
    AtoiOfPortNumeral(p);
    if LooksLikeRange(p) {
      var i := SplitInTwo(p, '-');
      assert p == p[..i] + ['-'] + p[i + 1..];
      AtoiOfPortNumeral(p[..i]);
      AtoiOfPortNumeral(p[i + 1..]);
      assert RangeExpression(p, p[..i], p[i + 1..], r);
    }
  }

  lemma {:induction false} ExpressionParses(p: string, r: PortRange)
    requires PortExpression(p, r)
    ensures ParsePortRange(p) == Success(r)
  {
    if PortNumeral(p) {
      AtoiOfPortNumeral(p);
      NumeralHasNoDash(p);
    } else if NegativeZero(p) {
      AtoiOfPortNumeral(p);
    } else {
      var a: string, b: string :| RangeExpression(p, a, b, r);
      RangeParses(a, b);
    }
  }

  lemma {:induction false} RangeParses(a: string, b: string)
    requires PortNumeral(a) && PortNumeral(b) && NumeralValue(a) <= NumeralValue(b)
    ensures ParsePortRange(a + ['-'] + b) == Success(PortRange(NumeralValue(a), NumeralValue(b)))
  {
    var p := a + ['-'] + b;
    assert LooksLikeRange(p) by {
      NumeralHasNoDash(a);
      assert p[0] == a[0] && a[0] in a && p[|a|] == '-';
    }
    assert Split(p, '-') == [a, b] by {
      NumeralHasNoDash(a);
      NumeralHasNoDash(b);
      SplitAtFirst(a, '-', b);
      SplitWithout(b, '-');
    }
    AtoiOfPortNumeral(a);
    AtoiOfPortNumeral(b);
    assert Atoi(a) == Some(NumeralValue(a)) && Atoi(b) == Some(NumeralValue(b));
    assert ParsePortRange(p) == ParseRangeForm(p);
  }

  // ---------------------------------------------------------------------------
  // Round trip with decimal rendering
  // ---------------------------------------------------------------------------

  function Decimal(n: nat): (s: string)
    ensures s != "" && AllDigits(s)
  {
    if n < 10 then ['0' + n as char]
    else Decimal(n / 10) + ['0' + (n % 10) as char]
  }

  lemma {:induction false} DecimalValue(n: nat)
    ensures DigitsValue(Decimal(n)) == n
  {
    var s := Decimal(n);
    if n < 10 {
      assert s[..|s| - 1] == "";
    } else {
      DecimalValue(n / 10);
      assert s[..|s| - 1] == Decimal(n / 10);
    }
  }

  /** Parsing inverts the decimal rendering of a port and of a port range. */
  lemma {:induction false} ParseOfRendered(start: nat, end: nat)
    requires start <= end <= 65535
    ensures ParsePortRange(Decimal(start)) == Success(PortRange(start, start))
    ensures ParsePortRange(Decimal(start) + "-" + Decimal(end)) == Success(PortRange(start, end))
  {
    DecimalValue(start);
    DecimalValue(end);
    var s, e := Decimal(start), Decimal(end);
    var p := s + "-" + e;
    assert PortNumeral(s) && PortNumeral(e);
    ExpressionParses(s, PortRange(start, start));
    assert RangeExpression(p, s, e, PortRange(start, end));
    ExpressionParses(p, PortRange(start, end));
  }

  // ---------------------------------------------------------------------------
  // The three parsers agree
  // ---------------------------------------------------------------------------

  predicate PortChar(c: char)
  {
    IsDigit(c) || c == '+' || c == '-'
  }

  predicate AllPortChars(s: string)
  {
    forall i :: 0 <= i < |s| ==> PortChar(s[i])
  }

  lemma {:induction false} NumeralChars(s: string)
    requires Numeral(s) || NegativeZero(s)
    ensures s != "" && AllPortChars(s)
  {
    if s[0] == '+' || s[0] == '-' {
      forall i | 0 < i < |s| ensures PortChar(s[i]) { assert s[i] == s[1..][i - 1]; }
    }
  }

  lemma {:induction false} DashedChars(a: string, b: string)
    requires AllPortChars(a) && AllPortChars(b)
    ensures AllPortChars(a + ['-'] + b)
  {
  }

  lemma {:induction false} ExpressionChars(p: string, r: PortRange)
    requires PortExpression(p, r)
    ensures p != "" && AllPortChars(p)
  {
    if Numeral(p) || NegativeZero(p) {
      NumeralChars(p);
    } else {
      var a: string, b: string :| RangeExpression(p, a, b, r);
      NumeralChars(a);
      NumeralChars(b);
      DashedChars(a, b);
    }
  }

  lemma {:induction false} CharsUntouched(p: string)
    requires p != "" && AllPortChars(p)
    ensures ',' !in p && TrimSpace(p) == p
  {
    assert PortChar(p[0]) && PortChar(p[|p| - 1]);
  }

  lemma {:induction false} ParsedPortChars(p: string)
    requires ParsePortRange(p).Success?
    ensures p != "" && AllPortChars(p) && ',' !in p && TrimSpace(p) == p
  {
    ParseIsExpression(p, ParsePortRange(p).value);
    ExpressionChars(p, ParsePortRange(p).value);
    CharsUntouched(p);
  }

  lemma {:induction false} ItemIsParsed(item: string)
    ensures ValidPortItem(item) <==> ParsePortRange(item).Success?
  {
  }

  /** The webhook package checks a port twice, with two parsers; the second accepts
      exactly what the first accepts of the trimmed string, and the empty string. */
  lemma {:induction false} ValidatePortAgrees(p: string)
    ensures ValidatePort(p) <==> p == "" || ParsePortRange(TrimSpace(p)).Success?
    ensures ParsePortRange(p).Success? ==> ValidatePort(p)
  {
    ItemIsParsed(TrimSpace(p));
    if ParsePortRange(p).Success? {
      ParsedPortChars(p);
    }
  }

  /** The provider accepts the empty string and the lists whose every item, trimmed, is a
      port or a range, and refuses everything else. */
  lemma {:induction false} ProviderAcceptsExactly(ports: string)
    ensures ProviderValidatePort(ports) <==>
            ports == "" || forall item :: item in Split(ports, ',') ==> exists r :: PortExpression(TrimSpace(item), r)
  {
    var items := Split(ports, ',');
    forall i | 0 <= i < |items|
      ensures ValidPortItem(TrimSpace(items[i])) <==> exists r :: PortExpression(TrimSpace(items[i]), r)
    {
      var item := TrimSpace(items[i]);
      ItemIsParsed(item);
      if ParsePortRange(item).Success? { ParseAcceptsExactly(item, ParsePortRange(item).value); }
      if r :| PortExpression(item, r) { ParseAcceptsExactly(item, r); }
    }
  }

  /** What the rule compiler writes: any non-empty list of parsed ports, joined with
      commas, passes the provider's check, splits back to the same list, and stands for
      exactly the union of the listed ranges. */
  lemma {:induction false} ProviderReadsJoinedPorts(ports: seq<string>)
    requires ports != []
    requires forall i :: 0 <= i < |ports| ==> ParsePortRange(ports[i]).Success?
    ensures ProviderValidatePort(Join(ports, ','))
    ensures Split(Join(ports, ','), ',') == ports
    ensures forall n :: Denotes(Join(ports, ','), n) <==>
                        exists i :: 0 <= i < |ports| && InRange(n, ParsePortRange(ports[i]).value)
  {
    forall i | 0 <= i < |ports|
      ensures ',' !in ports[i] && TrimSpace(ports[i]) == ports[i] && ValidPortItem(ports[i])
    {
      ParsedPortChars(ports[i]);
      ItemIsParsed(ports[i]);
    }
    SplitOfJoin(ports, ',');
    var joined := Join(ports, ',');
    forall n
      ensures Denotes(joined, n) <==> exists i :: 0 <= i < |ports| && InRange(n, ParsePortRange(ports[i]).value)
    {
      if Denotes(joined, n) {
        var i :| 0 <= i < |Split(joined, ',')| && ItemDenotes(Split(joined, ',')[i], n);
        assert InRange(n, ParsePortRange(ports[i]).value);
      }
      if i :| 0 <= i < |ports| && InRange(n, ParsePortRange(ports[i]).value) {
        assert ItemDenotes(Split(joined, ',')[i], n);
      }
    }
  }

  predicate InRange(n: int, r: PortRange)
  {
    r.start <= n <= r.end
  }
}
