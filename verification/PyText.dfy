/** The few Python text operations the engine's passes rely on: `str.isspace`, slices whose
    bounds are clamped, and `str.strip`. */
module PyText {

  /** `str.isspace` on one character: the white-space, paragraph and segment separators. */
  predicate IsSpace(c: char) {
    || '\U{0009}' <= c <= '\U{000D}'
    || '\U{001C}' <= c <= '\U{0020}'
    || c == '\U{0085}' || c == '\U{00A0}' || c == '\U{1680}'
    || '\U{2000}' <= c <= '\U{200A}'
    || c == '\U{2028}' || c == '\U{2029}' || c == '\U{202F}' || c == '\U{205F}' || c == '\U{3000}'
  }

  predicate IsDash(c: char) {
    c == '-' || c == '\U{2013}' || c == '\U{2014}'
  }

  predicate AllSpace(s: string) {
    forall i :: 0 <= i < |s| ==> IsSpace(s[i])
  }

  /** `s[a:b]` for bounds that are not negative. */
  function Slice(s: string, a: nat, b: nat): string {
    if a >= |s| || b <= a then "" else s[a..if b <= |s| then b else |s|]
  }

  function LStrip(s: string): string {
    if s != "" && IsSpace(s[0]) then LStrip(s[1..]) else s
  }

  function RStrip(s: string): string {
    if s != "" && IsSpace(s[|s| - 1]) then RStrip(s[..|s| - 1]) else s
  }

  function Strip(s: string): string {
    RStrip(LStrip(s))
  }

  /** What `strip` leaves has no space at either end. */
  predicate Trimmed(s: string) {
    s != "" ==> !IsSpace(s[0]) && !IsSpace(s[|s| - 1])
  }

  lemma {:induction false} LStripCuts(s: string) returns (k: nat)
    ensures k <= |s| && LStrip(s) == s[k..] && AllSpace(s[..k])
    ensures LStrip(s) != "" ==> !IsSpace(LStrip(s)[0])
  {
    hide IsSpace, AllSpace;
    k := 0;
    NoneIsSpace();
    assert s[..0] == "" && s[0..] == s;
    if s != "" && IsSpace(s[0]) {
      var j := LStripCuts(s[1..]);
      k := j + 1;
      OneMoreSpace(s[0], s[1..][..j]);
      assert s[..k] == [s[0]] + s[1..][..j] && s[k..] == s[1..][j..];
    }
  }

  lemma NoneIsSpace()
    ensures AllSpace("")
  {
  }

  lemma OneMoreSpace(c: char, rest: string)
    requires IsSpace(c) && AllSpace(rest)
    ensures AllSpace([c] + rest)
  {
  }

  lemma {:induction false} RStripCuts(s: string) returns (k: nat)
    ensures k <= |s| && RStrip(s) == s[..k] && AllSpace(s[k..])
    ensures RStrip(s) != "" ==> !IsSpace(RStrip(s)[|RStrip(s)| - 1])
  {
    hide IsSpace;
    k := |s|;
    if s != "" && IsSpace(s[|s| - 1]) {
      k := RStripCuts(s[..|s| - 1]);
      assert s[..|s| - 1][..k] == s[..k];
      assert s[k..] == s[..|s| - 1][k..] + [s[|s| - 1]];
    }
  }

  /** `strip` returns a slice, drops only spaces, and leaves nothing to strip. */
  lemma StripCuts(s: string) returns (a: nat, b: nat)
    ensures a <= b <= |s| && Strip(s) == s[a..b]
    ensures AllSpace(s[..a]) && AllSpace(s[b..])
    ensures Trimmed(Strip(s))
  {
    hide IsSpace;
    a := LStripCuts(s);
    var k := RStripCuts(LStrip(s));
    b := a + k;
    assert LStrip(s)[..k] == s[a..b];
    assert LStrip(s)[k..] == s[b..];
  }

  /** CR LF, then CR alone, become LF. */
  function Newlines(s: string): string {
    if s == "" then ""
    else if s[0] == '\r' then "\n" + Newlines(if |s| > 1 && s[1] == '\n' then s[2..] else s[1..])
    else [s[0]] + Newlines(s[1..])
  }

  lemma {:induction false} NewlinesHaveNoCr(s: string)
    ensures '\r' !in Newlines(s)
  {
    if s != "" { NewlinesHaveNoCr(if s[0] == '\r' && |s| > 1 && s[1] == '\n' then s[2..] else s[1..]); }
  }

  lemma {:induction false} NewlinesKeep(s: string)
    requires '\r' !in s
    ensures Newlines(s) == s
  {
    if s != "" { NewlinesKeep(s[1..]); }
  }

  /** The first line break or character of `a`, whatever comes behind `a`, but for an LF. */
  lemma NewlinesFront(a: string, rest: string) returns (n: nat, head: string)
    requires a != "" && rest != "" && rest[0] != '\n'
    ensures 0 < n <= |a| && Newlines(a) == head + Newlines(a[n..])
            && Newlines(a + rest) == head + Newlines(a[n..] + rest)
  {
    n := if a[0] == '\r' && |a| > 1 && a[1] == '\n' then 2 else 1;
    head := [if a[0] == '\r' then '\n' else a[0]];
    var s := a + rest;
    assert s[0] == a[0] && s[1] == if |a| > 1 then a[1] else rest[0];
    assert s[n..] == a[n..] + rest;
  }

  lemma {:induction false} NewlinesAt(a: string, rest: string, b: string)
    requires rest != "" && rest[0] == '\r' && Newlines(rest) == "\n" + Newlines(b)
    ensures Newlines(a + rest) == Newlines(a) + "\n" + Newlines(b)
    decreases |a|
  {
    if a == "" {
      assert a + rest == rest;
    } else {
      hide Newlines;
      var n, head := NewlinesFront(a, rest);
      NewlinesAt(a[n..], rest, b);
    }
  }

  /** CR LF is one line break ... */
  lemma NewlinesAtCrLf(a: string, b: string)
    ensures Newlines(a + "\r\n" + b) == Newlines(a) + "\n" + Newlines(b)
  {
    assert ("\r\n" + b)[2..] == b;
    NewlinesAt(a, "\r\n" + b, b);
    assert a + "\r\n" + b == a + ("\r\n" + b);
  }

  /** ... and so is CR alone. */
  lemma NewlinesAtCr(a: string, b: string)
    requires b == "" || b[0] != '\n'
    ensures Newlines(a + "\r" + b) == Newlines(a) + "\n" + Newlines(b)
  {
    assert ("\r" + b)[1..] == b;
    NewlinesAt(a, "\r" + b, b);
    assert a + "\r" + b == a + ("\r" + b);
  }

  /** `str` of a number. */
  function Decimal(n: nat): string {
    if n < 10 then [Digit(n)] else Decimal(n / 10) + [Digit(n % 10)]
  }

  function Digit(n: nat): char
    requires n < 10
  {
    '0' + n as char
  }

  /** One step of a loop that moves the head of a list to the end of an accumulator. */
  lemma Regroup<T>(a: seq<T>, b: seq<T>, c: seq<T>, whole: seq<T>)
    requires a + (b + c) == whole
    ensures (a + b) + c == whole
  {
    assert (a + b) + c == a + (b + c);
  }
}
