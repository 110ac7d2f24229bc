/** The Python `str` methods the readers rely on, with the semantics of
    CPython 3: `strip()` with no argument, `find(sub)`, `split(sep)` with a
    separator, `sep.join(parts)` and `endswith(suffix)`. Strings are
    sequences of Unicode code points. */
module PyStr {

  /** `str.isspace()` for one character: the characters CPython's
      `str.isspace()` accepts, which are those `strip()` with no argument
      removes. */
  predicate IsSpace(c: char) {
    var n := c as int;
    (0x09 <= n <= 0x0D) || (0x1C <= n <= 0x20) || n == 0x85 || n == 0xA0
    || n == 0x1680 || (0x2000 <= n <= 0x200A) || n == 0x2028 || n == 0x2029
    || n == 0x202F || n == 0x205F || n == 0x3000
  }

  predicate AllSpace(s: string) {
    forall i :: 0 <= i < |s| ==> IsSpace(s[i])
  }

  /** Neither end of `s` is whitespace. */
  predicate IsStripped(s: string) {
    s == [] || (!IsSpace(s[0]) && !IsSpace(s[|s| - 1]))
  }

  /** `s.lstrip()`. */
  function LStrip(s: string): string {
    if |s| > 0 && IsSpace(s[0]) then LStrip(s[1..]) else s
  }

  /** `s.rstrip()`. */
  function RStrip(s: string): string {
    if |s| > 0 && IsSpace(s[|s| - 1]) then RStrip(s[..|s| - 1]) else s
  }

  /** `s.strip()`. */
  function Strip(s: string): string {
    RStrip(LStrip(s))
  }

  /** `lstrip()` keeps the longest suffix that does not start with
      whitespace; everything it cuts off is whitespace. */
  lemma {:induction false} LStripSpec(s: string)
    ensures var r := LStrip(s);
      |r| <= |s| && r == s[|s| - |r|..] && AllSpace(s[..|s| - |r|]) && (r == [] || !IsSpace(r[0]))
  {
    if |s| > 0 && IsSpace(s[0]) {
      LStripSpec(s[1..]);
      var r := LStrip(s);
      assert s[..|s| - |r|] == [s[0]] + s[1..][..|s| - 1 - |r|];
    }
  }

  /** `rstrip()` keeps the longest prefix that does not end with
      whitespace; everything it cuts off is whitespace. */
  lemma {:induction false} RStripSpec(s: string)
    ensures var r := RStrip(s);
      |r| <= |s| && r == s[..|r|] && AllSpace(s[|r|..]) && (r == [] || !IsSpace(r[|r| - 1]))
  {
    if |s| > 0 && IsSpace(s[|s| - 1]) {
      RStripSpec(s[..|s| - 1]);
      var r := RStrip(s);
      assert s[|r|..] == s[..|s| - 1][|r|..] + [s[|s| - 1]];
    }
  }

  /** `strip()` gives the slice of `s` left when leading and trailing
      whitespace is cut off: it starts where `lstrip()` starts, both
      cut-off parts are whitespace only, and neither end of the result is
      whitespace. */
  lemma StripSpec(s: string)
    ensures |LStrip(s)| <= |s|
    ensures var r, i := Strip(s), |s| - |LStrip(s)|;
      IsStripped(r) && i + |r| <= |s| && r == s[i..i + |r|] && AllSpace(s[..i]) && AllSpace(s[i + |r|..])
  {
    var l := LStrip(s);
    var r := RStrip(l);
    LStripSpec(s);
    RStripSpec(l);
    if r != [] {
      assert r[0] == l[0];
    }
    var i := |s| - |l|;
    assert s[i + |r|..] == l[|r|..];
  }

  /** A stripped string is its own `strip()`. */
  lemma StrippedFixed(s: string)
    requires IsStripped(s)
    ensures Strip(s) == s
  {
  }

  /** `strip()` is idempotent. */
  lemma StripIdempotent(s: string)
    ensures Strip(Strip(s)) == Strip(s)
  {
    StripSpec(s);
    StrippedFixed(Strip(s));
  }

  /** `strip()` gives the empty string exactly for whitespace-only input. */
  lemma StripEmptyIff(s: string)
    ensures Strip(s) == "" <==> AllSpace(s)
  {
    StripSpec(s);
    var i := |s| - |LStrip(s)|;
    if Strip(s) == "" {
      assert s == s[..i] + s[i..];
    } else {
      var r := Strip(s);
      assert s[i] == r[0];
    }
  }

  /** A line terminator makes no difference to `strip()`, so a line read
      with or without its trailing newline strips to the same string. */
  lemma {:induction false} StripIgnoresNewline(s: string)
    ensures Strip(s + "\n") == Strip(s)
  {
    LStripAppendNewline(s);
    LStripSpec(s);
    var l := LStrip(s);
    if l == [] {
      assert LStrip(s + "\n") == [];
    } else {
      assert RStrip(l + "\n") == RStrip((l + "\n")[..|l|]);
      assert (l + "\n")[..|l|] == l;
    }
  }

  lemma {:induction false} LStripAppendNewline(s: string)
    ensures LStrip(s + "\n") == if LStrip(s) == [] then [] else LStrip(s) + "\n"
  {
    if s == [] {
      assert IsSpace('\n') && "\n"[1..] == "";
    } else if IsSpace(s[0]) {
      assert (s + "\n")[1..] == s[1..] + "\n";
      LStripAppendNewline(s[1..]);
    } else {
      assert (s + "\n")[0] == s[0];
    }
  }

  /** `sep` occurs in `s` starting at index `k`. */
  predicate OccursAt(s: string, sep: string, k: int) {
    0 <= k && k + |sep| <= |s| && s[k..k + |sep|] == sep
  }

  /** `s.find(sep)`: the index of the first occurrence of `sep` in `s`, or
      -1 when there is none. */
  function Find(s: string, sep: string): (k: int)
    ensures -1 <= k
    ensures k == -1 ==> forall j :: !OccursAt(s, sep, j)
    ensures k >= 0 ==> OccursAt(s, sep, k) && forall j :: 0 <= j < k ==> !OccursAt(s, sep, j)
  {
    if |s| < |sep| then -1
    else if s[..|sep|] == sep then 0
    else
      var k := Find(s[1..], sep);
      assert forall j :: OccursAt(s, sep, j + 1) ==> OccursAt(s[1..], sep, j) by {
        forall j | OccursAt(s, sep, j + 1) ensures OccursAt(s[1..], sep, j) {
          assert s[1..][j..j + |sep|] == s[j + 1..j + 1 + |sep|];
        }
      }
      assert !OccursAt(s, sep, 0);
      if k < 0 then
        assert forall j :: !OccursAt(s, sep, j) by {
          forall j ensures !OccursAt(s, sep, j) {
            if j > 0 { assert !OccursAt(s[1..], sep, j - 1); }
          }
        }
        -1
      else
        assert s[1..][k..k + |sep|] == s[k + 1..k + 1 + |sep|];
        assert forall j :: 0 <= j < k + 1 ==> !OccursAt(s, sep, j) by {
          forall j | 0 < j < k + 1 ensures !OccursAt(s, sep, j) {
            assert !OccursAt(s[1..], sep, j - 1);
          }
        }
        k + 1
  }

  /** `s.split(sep)` for a non-empty separator: the text between successive
      occurrences of `sep`, scanning left to right. There is always at
      least one piece, there is exactly one when `sep` does not occur, and
      no piece contains `sep`. */
  function Split(s: string, sep: string): (parts: seq<string>)
    requires |sep| > 0
    ensures |parts| >= 1
    ensures Find(s, sep) == -1 ==> parts == [s]
    ensures Find(s, sep) >= 0 ==> |parts| >= 2
    ensures forall i :: 0 <= i < |parts| ==> Find(parts[i], sep) == -1
    decreases |s|
  {
    var k := Find(s, sep);
    if k < 0 then [s]
    else
      var first := s[..k];
      assert Find(first, sep) == -1 by {
        if Find(first, sep) >= 0 {
          var j := Find(first, sep);
          assert first[j..j + |sep|] == s[j..j + |sep|];
          assert OccursAt(s, sep, j);
        }
      }
      [first] + Split(s[k + |sep|..], sep)
  }

  /** `sep.join(parts)`. */
  function Join(parts: seq<string>, sep: string): string {
    if |parts| == 0 then ""
    else if |parts| == 1 then parts[0]
    else parts[0] + sep + Join(parts[1..], sep)
  }

  /** Splitting loses nothing: joining the pieces with the separator gives
      back the original string. */
  lemma {:induction false} SplitJoin(s: string, sep: string)
    requires |sep| > 0
    ensures Join(Split(s, sep), sep) == s
    decreases |s|
  {
    var k := Find(s, sep);
    if k >= 0 {
      var rest := s[k + |sep|..];
      var tail := Split(rest, sep);
      SplitJoin(rest, sep);
      assert Split(s, sep)[1..] == tail;
      Reassemble(s, sep, k);
    }
  }

  lemma Reassemble(s: string, sep: string, k: int)
    requires OccursAt(s, sep, k)
    ensures s[..k] + sep + s[k + |sep|..] == s
  {
  }

  /** Every piece but the last ends where the first occurrence of the
      separator in the rest of the string starts: the piece followed by the
      separator has its first occurrence of the separator right after the
      piece. With SplitJoin this fixes the pieces, as Python's left-to-right
      scan does (`"aaa".split("aa")` is `["", "a"]`, not `["a", ""]`). */
  lemma {:induction false} SplitTakesFirstOccurrence(s: string, sep: string)
    requires |sep| > 0
    ensures forall i :: 0 <= i < |Split(s, sep)| - 1 ==>
      Find(Split(s, sep)[i] + sep, sep) == |Split(s, sep)[i]|
    decreases |s|
  {
    var k := Find(s, sep);
    if k >= 0 {
      var rest := s[k + |sep|..];
      var tail := Split(rest, sep);
      SplitTakesFirstOccurrence(rest, sep);
      var parts := Split(s, sep);
      assert parts[1..] == tail;
      assert parts[0] + sep == s[..k + |sep|];
      FindInPrefix(s, sep, k);
      forall i | 1 <= i < |parts| - 1
        ensures Find(parts[i] + sep, sep) == |parts[i]|
      {
        assert parts[i] == tail[i - 1];
      }
    }
  }

  /** The first occurrence of `sep` in `s` is also the first in the prefix
      of `s` that ends with it. */
  lemma FindInPrefix(s: string, sep: string, k: int)
    requires OccursAt(s, sep, k)
    requires forall j :: 0 <= j < k ==> !OccursAt(s, sep, j)
    ensures Find(s[..k + |sep|], sep) == k
  {
    var p := s[..k + |sep|];
    assert p == s[0..0 + (k + |sep|)];
    assert p[k..k + |sep|] == s[k..k + |sep|];
    forall j | 0 <= j < k ensures !OccursAt(p, sep, j) {
      if OccursAt(p, sep, j) {
        OccursInSlice(s, sep, 0, k + |sep|, j);
        assert false;
      }
    }
    FirstOccurrence(p, sep, k);
  }

  /** An occurrence with no earlier one is what `find` returns. */
  lemma FirstOccurrence(s: string, sep: string, k: int)
    requires OccursAt(s, sep, k)
    requires forall j :: 0 <= j < k ==> !OccursAt(s, sep, j)
    ensures Find(s, sep) == k
  {
    var m := Find(s, sep);
    assert m != -1;
  }

  /** An occurrence of `sep` in a slice of `s` is an occurrence in `s`,
      shifted by where the slice starts. */
  lemma OccursInSlice(s: string, sep: string, i: nat, n: nat, j: int)
    requires i + n <= |s| && OccursAt(s[i..i + n], sep, j)
    ensures OccursAt(s, sep, i + j)
  {
    var q := s[i..i + n];
    assert |q| == n;
    var a, b := q[j..j + |sep|], s[i + j..i + j + |sep|];
    forall t | 0 <= t < |sep| ensures a[t] == b[t] {
      assert q[j + t] == s[i + j + t];
    }
    assert a == b;
  }

  /** `s.endswith(suffix)`. */
  predicate EndsWith(s: string, suffix: string) {
    |suffix| <= |s| && s[|s| - |suffix|..] == suffix
  }

  /** A name ending in ".xlsx" does not end in ".xls", so the two Excel
      suffixes are never both present. */
  lemma XlsxIsNotXls(s: string)
    requires EndsWith(s, ".xlsx")
    ensures !EndsWith(s, ".xls")
  {
    assert s[|s| - 1] == s[|s| - 5..][4] == 'x';
  }
}
