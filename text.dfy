/** The few Python string primitives the two programs rely on: `str.split()`
    with no separator, `int()` on a decimal token, `str()` of a natural number,
    `' '.join(...)` and slicing with Python's clamping rules. */
module Text {

  datatype Option<T> = None | Some(value: T)

  /** The two exceptions the readers can raise, with the (0-based) line that raised them. */
  datatype PyError = IndexError(line: nat) | ValueError(line: nat)

  datatype Result<T> = Ok(value: T) | Err(error: PyError)

  /** Python's `str.isspace()`: the characters `str.split()` and `int()` treat as white space. */
  predicate IsSpace(c: char)
  {
    || ('\t' <= c <= '\r')
    || ('\U{1C}' <= c <= ' ')
    || c == '\U{85}' || c == '\U{A0}' || c == '\U{1680}'
    || ('\U{2000}' <= c <= '\U{200A}')
    || c == '\U{2028}' || c == '\U{2029}' || c == '\U{202F}' || c == '\U{205F}' || c == '\U{3000}'
  }

  /** A token `str.split()` can return: non-empty, no white space in it. */
  predicate IsToken(t: string)
  {
    |t| > 0 && forall k :: 0 <= k < |t| ==> !IsSpace(t[k])
  }

  /** Length of the run of white space at the front of `s`. */
  function SpaceRun(s: string): (n: nat)
    ensures n <= |s|
    ensures forall k :: 0 <= k < n ==> IsSpace(s[k])
    ensures n == |s| || !IsSpace(s[n])
  {
    if s == [] || !IsSpace(s[0]) then 0 else 1 + SpaceRun(s[1..])
  }

  /** Length of the run of non-white-space characters at the front of `s`. */
  function WordRun(s: string): (n: nat)
    ensures n <= |s|
    ensures forall k :: 0 <= k < n ==> !IsSpace(s[k])
    ensures n == |s| || IsSpace(s[n])
  {
    if s == [] || IsSpace(s[0]) then 0 else 1 + WordRun(s[1..])
  }

  /** Python's `s.split()` (equal to `s.strip().split()`): the maximal runs of
      non-white-space characters, in order. */
  function Split(s: string): (r: seq<string>)
    ensures forall k :: 0 <= k < |r| ==> IsToken(r[k])
    decreases |s|
  {
    var b := SpaceRun(s);
    if b == |s| then []
    else
      var rest := s[b..];
      var w := WordRun(rest);
      assert IsToken(rest[..w]);
      [rest[..w]] + Split(rest[w..])
  }

  /** `sep.join(ts)`. */
  function Join(ts: seq<string>, sep: string): string
  {
    if |ts| == 0 then ""
    else if |ts| == 1 then ts[0]
    else ts[0] + sep + Join(ts[1..], sep)
  }

  lemma SplitSpaceFirst(c: char, rest: string)
    requires IsSpace(c)
    ensures Split([c] + rest) == Split(rest)
  {
    var s := [c] + rest;
    assert s[1..] == rest;
    var b := SpaceRun(s);
    assert b == 1 + SpaceRun(rest);
    if b < |s| {
      assert s[b..] == rest[b - 1..];
      var w := WordRun(s[b..]);
      assert s[b..b + w] == rest[b - 1..b - 1 + w];
      assert s[b + w..] == rest[b - 1 + w..];
    }
  }

  lemma SplitWordFirst(t: string, rest: string)
    requires IsToken(t)
    requires rest == [] || IsSpace(rest[0])
    ensures Split(t + rest) == [t] + Split(rest)
  {
    var s := t + rest;
    assert SpaceRun(s) == 0;
    assert s[0..] == s;
    WordRunOfToken(t, rest);
    assert s[0..|t|] == t;
    assert s[|t|..] == rest;
  }

  lemma {:induction false} WordRunOfToken(t: string, rest: string)
    requires forall k :: 0 <= k < |t| ==> !IsSpace(t[k])
    requires rest == [] || IsSpace(rest[0])
    ensures WordRun(t + rest) == |t|
    decreases |t|
  {
    if t == [] {
      assert t + rest == rest;
    } else {
      assert (t + rest)[1..] == t[1..] + rest;
      WordRunOfToken(t[1..], rest);
    }
  }

  /** Splitting a line written as tokens joined by single spaces and ended by a
      newline gives the tokens back. */
  lemma {:induction false} SplitJoin(ts: seq<string>)
    requires forall k :: 0 <= k < |ts| ==> IsToken(ts[k])
    ensures Split(Join(ts, " ") + "\n") == ts
  {
    if |ts| == 0 {
      assert Join(ts, " ") + "\n" == ['\n'] + [];
      SplitSpaceFirst('\n', []);
    } else if |ts| == 1 {
      SplitWordFirst(ts[0], "\n");
      assert Join(ts, " ") + "\n" == ts[0] + "\n";
      SplitSpaceFirst('\n', []);
      assert Split("\n") == Split([]);
    } else {
      var tail := Join(ts[1..], " ") + "\n";
      assert Join(ts, " ") + "\n" == ts[0] + ([' '] + tail);
      SplitWordFirst(ts[0], [' '] + tail);
      SplitSpaceFirst(' ', tail);
      SplitJoin(ts[1..]);
      assert [ts[0]] + ts[1..] == ts;
    }
  }

  predicate IsDigit(c: char)
  {
    '0' <= c <= '9'
  }

  /** The body of a base-10 literal accepted by Python's `int()`: digits, with
      single underscores allowed between two digits ("1_000"). */
  predicate IsDigitString(s: string)
  {
    && |s| > 0
    && IsDigit(s[0])
    && IsDigit(s[|s| - 1])
    && (forall k :: 0 <= k < |s| ==> IsDigit(s[k]) || s[k] == '_')
    && (forall k :: 0 <= k < |s| - 1 ==> IsDigit(s[k]) || IsDigit(s[k + 1]))
  }

  /** Value of a digit string, underscores ignored. */
  function DigitsValue(s: string): nat
  {
    if s == [] then 0
    else if IsDigit(s[|s| - 1]) then 10 * DigitsValue(s[..|s| - 1]) + (s[|s| - 1] - '0') as nat
    else DigitsValue(s[..|s| - 1])
  }

  /** Python's `int(t)` on a token without surrounding white space: an optional
      sign followed by a digit string; `None` where Python raises ValueError. */
  function ParseInt(t: string): (r: Option<int>)
    ensures r.Some? ==> |t| > 0
    ensures r.Some? && IsDigit(t[0]) ==> r.value >= 0
  {
    if |t| > 0 && t[0] == '-' then
      if IsDigitString(t[1..]) then Some(0 - DigitsValue(t[1..])) else None
    else if |t| > 0 && t[0] == '+' then
      if IsDigitString(t[1..]) then Some(DigitsValue(t[1..])) else None
    else if IsDigitString(t) then Some(DigitsValue(t))
    else None
  }

  /** Python's `int(line.strip())`: the stripped line must be one token, and
      that token an integer literal. */
  function ParseIntLine(line: string): Option<int>
  {
    var parts := Split(line);
    if |parts| == 1 then ParseInt(parts[0]) else None
  }

  function DigitChar(d: nat): (c: char)
    requires d < 10
    ensures IsDigit(c) && (c - '0') as nat == d
  {
    (d + '0' as nat) as char
  }

  /** Python's `str(n)` for a natural number: its decimal digits, no leading zero. */
  function NatToString(n: nat): (s: string)
    ensures |s| > 0
    ensures forall k :: 0 <= k < |s| ==> IsDigit(s[k])
    ensures s[0] != '0' || n == 0
  {
    if n < 10 then [DigitChar(n)] else NatToString(n / 10) + [DigitChar(n % 10)]
  }

  lemma {:induction false} DigitsValueOfNatToString(n: nat)
    ensures DigitsValue(NatToString(n)) == n
  {
    var s := NatToString(n);
    if n < 10 {
      assert s[..0] == [];
    } else {
      DigitsValueOfNatToString(n / 10);
      assert s[..|s| - 1] == NatToString(n / 10);
    }
  }

  /** `int(str(n)) == n`: the decimal text of a natural number parses back to it. */
  lemma ParseIntNatToString(n: nat)
    ensures IsToken(NatToString(n))
    ensures ParseInt(NatToString(n)) == Some(n)
  {
    var s := NatToString(n);
    assert forall k :: 0 <= k < |s| ==> !IsSpace(s[k]);
    assert IsDigitString(s);
    DigitsValueOfNatToString(n);
  }

  /** Python's `s[start:stop]` for a non-negative `start`: a negative `stop`
      counts from the end, and both bounds are clamped to the sequence. */
  function PySlice<T>(s: seq<T>, start: nat, stop: int): (r: seq<T>)
    ensures var b := if start < |s| then start else |s|; b + |r| <= |s| && r == s[b..b + |r|]
    ensures 0 <= stop ==> |r| <= stop
  {
    var b := if start < |s| then start else |s|;
    var e0 := if stop < 0 then stop + |s| else stop;
    var e := if e0 < 0 then 0 else if e0 > |s| then |s| else e0;
    if b < e then s[b..e] else []
  }

  /** With a non-negative stop at most the length, the slice is exactly `s[start..stop]`. */
  lemma PySliceInRange<T>(s: seq<T>, start: nat, stop: int)
    requires start <= stop <= |s|
    ensures PySlice(s, start, stop) == s[start..stop]
  {
  }
}
