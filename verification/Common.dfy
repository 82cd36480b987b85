/** Small shared vocabulary. */
module Common {

  datatype Option<+T> = None | Some(value: T)

  type Byte = b: nat | b < 256

  predicate IsSpace(c: char) {
    c in {' ', '\t', '\n', '\r'} || c as int == 11 || c as int == 12
  }

  function TrimLeft(s: string): (r: string)
    ensures r == "" || !IsSpace(r[0])
    ensures |r| <= |s|
    ensures s != "" && !IsSpace(s[|s| - 1]) ==> r != "" && r[|r| - 1] == s[|s| - 1]
  {
    if s != "" && IsSpace(s[0]) then TrimLeft(s[1..]) else s
  }

  function TrimRight(s: string): (r: string)
    ensures r <= s
    ensures r == "" || !IsSpace(r[|r| - 1])
  {
    if s != "" && IsSpace(s[|s| - 1]) then TrimRight(s[..|s| - 1]) else s
  }

  /** Leading and trailing ASCII white space removed. */
  function TrimSpace(s: string): (r: string)
    ensures r != "" ==> !IsSpace(r[0]) && !IsSpace(r[|r| - 1])
  {
    TrimLeft(TrimRight(s))
  }

  predicate AllSpace(s: string) {
    forall i :: 0 <= i < |s| ==> s[i] in {' ', '\t', '\n', '\r', 11 as char, 12 as char}
  }

  /** Trimming takes away white space only, at both ends, and as much of it as there is. */
  lemma {:induction false} TrimSpaceParts(s: string) returns (before: string, after: string)
    ensures s == before + TrimSpace(s) + after && AllSpace(before) && AllSpace(after)
    ensures TrimSpace(s) != "" ==> !AllSpace([TrimSpace(s)[0]]) && !AllSpace([TrimSpace(s)[|TrimSpace(s)| - 1]])
  {
    after := RightSpace(s);
    before := LeftSpace(TrimRight(s));
    var t := TrimSpace(s);
    if t != "" {
      assert [t[0]][0] == t[0] && [t[|t| - 1]][0] == t[|t| - 1];
    }
  }

  lemma {:induction false} RightSpace(s: string) returns (after: string)
    ensures s == TrimRight(s) + after && AllSpace(after)
  {
    after := "";
    if s != "" && IsSpace(s[|s| - 1]) {
      var rest := RightSpace(s[..|s| - 1]);
      after := rest + [s[|s| - 1]];
      assert s == s[..|s| - 1] + [s[|s| - 1]];
    }
  }

  lemma {:induction false} LeftSpace(s: string) returns (before: string)
    ensures s == before + TrimLeft(s) && AllSpace(before)
  {
    before := "";
    if s != "" && IsSpace(s[0]) {
      var rest := LeftSpace(s[1..]);
      before := [s[0]] + rest;
      assert s == [s[0]] + s[1..];
    }
  }

  /** The decimal form of a number. */
  function Decimal(n: nat): (s: string)
    ensures s != ""
  {
    if n < 10 then ['0' + n as char] else Decimal(n / 10) + ['0' + (n % 10) as char]
  }

  /** The number that a string of decimal digits is read as. */
  function DecimalValue(s: string): int {
    if s == "" then 0 else 10 * DecimalValue(s[..|s| - 1]) + (s[|s| - 1] as int - '0' as int)
  }

  function Pow2(n: nat): (p: nat)
    ensures p >= 1
  {
    if n == 0 then 1 else 2 * Pow2(n - 1)
  }

  predicate Distinct(names: seq<string>) {
    forall i, j :: 0 <= i < j < |names| ==> names[i] != names[j]
  }

  lemma Associative<T>(a: seq<T>, b: seq<T>, c: seq<T>)
    ensures a + (b + c) == a + b + c && a + [] == a && [] + a == a
    ensures c == [] ==> a + b + c == a + b
  {
  }
}
