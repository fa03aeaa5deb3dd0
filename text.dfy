/** String helpers that stand in for the .NET string methods the control
    panel relies on: `StringComparison.OrdinalIgnoreCase`,
    `string.IsNullOrWhiteSpace`, `Trim` and `TrimEnd`. */
module Text {

  /** ASCII lower-casing of one character; every other character is kept. */
  function Lower(c: char): char
  {
    if 'A' <= c <= 'Z' then (c as int + 32) as char else c
  }

  /** The case fold used for every "ignore case" comparison. */
  function Fold(s: string): (r: string)
    ensures |r| == |s|
  {
    seq(|s|, i requires 0 <= i < |s| => Lower(s[i]))
  }

  /** Ordinal comparison ignoring case: two strings are equal once folded.
      Being an equality of folds, it is reflexive, symmetric and transitive. */
  predicate EqualsIgnoreCase(a: string, b: string)
  {
    Fold(a) == Fold(b)
  }

  /** Character-wise reading of the comparison: same length and every pair of
      characters agrees once lower-cased. */
  lemma EqualsIgnoreCaseCharwise(a: string, b: string)
    ensures EqualsIgnoreCase(a, b) <==>
            |a| == |b| && forall i :: 0 <= i < |a| ==> Lower(a[i]) == Lower(b[i])
  {
    if |a| == |b| && forall i :: 0 <= i < |a| ==> Lower(a[i]) == Lower(b[i]) {
      assert forall i :: 0 <= i < |a| ==> Fold(a)[i] == Fold(b)[i];
    }
    if EqualsIgnoreCase(a, b) {
      forall i | 0 <= i < |a| ensures Lower(a[i]) == Lower(b[i]) {
        assert Fold(a)[i] == Fold(b)[i];
      }
    }
  }

  /** The characters `Char.IsWhiteSpace` accepts: tab through carriage
      return, space, next line, no-break space and the Unicode space,
      line and paragraph separators. */
  predicate IsWhiteSpace(c: char)
  {
    var n := c as int;
    (9 <= n <= 13) || n == 0x20 || n == 0x85 || n == 0xA0 || n == 0x1680 ||
    (0x2000 <= n <= 0x200A) || n == 0x2028 || n == 0x2029 || n == 0x202F ||
    n == 0x205F || n == 0x3000
  }

  /** `string.IsNullOrWhiteSpace`: empty, or whitespace only. */
  predicate IsBlank(s: string)
  {
    forall i :: 0 <= i < |s| ==> IsWhiteSpace(s[i])
  }

  /** `TrimStart()`: drops the leading whitespace. */
  function TrimStart(s: string): (r: string)
    ensures |r| <= |s| && r == s[|s| - |r|..]
    ensures IsBlank(s[..|s| - |r|])
    ensures r == [] || !IsWhiteSpace(r[0])
  {
    if s != [] && IsWhiteSpace(s[0]) then
      var t := TrimStart(s[1..]);
      assert s[..|s| - |t|] == [s[0]] + s[1..][..|s| - 1 - |t|];
      t
    else s
  }

  /** `TrimEnd()`: drops the trailing whitespace. */
  function TrimEnd(s: string): (r: string)
    ensures |r| <= |s| && r == s[..|r|]
    ensures IsBlank(s[|r|..])
    ensures r == [] || !IsWhiteSpace(r[|r| - 1])
  {
    if s != [] && IsWhiteSpace(s[|s| - 1]) then
      var t := TrimEnd(s[..|s| - 1]);
      assert s[|t|..] == s[..|s| - 1][|t|..] + [s[|s| - 1]];
      t
    else s
  }

  /** A string is blank exactly when trimming its start leaves nothing. */
  lemma TrimStartEmptyIffBlank(s: string)
    ensures IsBlank(s) <==> TrimStart(s) == []
  {
    var t := TrimStart(s);
    assert t == [] ==> s[..|s|] == s;
    assert t != [] ==> s[|s| - |t|] == t[0];
  }

  /** Trimming both ends of a string leaves nothing exactly when it is
      blank, and otherwise a non-whitespace character at both ends. */
  lemma TrimBothEnds(s: string)
    ensures IsBlank(s) <==> TrimEnd(TrimStart(s)) == []
    ensures var u := TrimEnd(TrimStart(s));
            u != [] ==> !IsWhiteSpace(u[0]) && !IsWhiteSpace(u[|u| - 1])
  {
    TrimStartEmptyIffBlank(s);
    var t := TrimStart(s);
    var u := TrimEnd(t);
    assert |u| == 0 ==> t[|u|..] == t;
    assert t != [] ==> u != [] && u[0] == t[0];
  }

  /** `Trim()`: drops whitespace at both ends. The result is the input
      with a blank prefix and a blank suffix cut off; it is empty exactly
      when the string is blank, and otherwise starts and ends with a
      non-whitespace character. */
  function Trim(s: string): (r: string)
    ensures |r| <= |s|
    ensures IsBlank(s) <==> r == []
    ensures r != [] ==> !IsWhiteSpace(r[0]) && !IsWhiteSpace(r[|r| - 1])
  {
    TrimBothEnds(s);
    var t := TrimStart(s);
    var r := TrimEnd(t);
    r
  }

  /** Slicing a suffix is slicing the whole. */
  lemma SliceOfSuffix<T>(s: seq<T>, k: nat, n: nat)
    requires k + n <= |s|
    ensures s[k..][..n] == s[k..k + n] && s[k..][n..] == s[k + n..]
  {
  }

  /** `Trim` cuts a blank prefix and a blank suffix off the input. */
  lemma TrimCutsBlankEnds(s: string)
    ensures var r := Trim(s);
            exists k :: 0 <= k <= |s| - |r| && r == s[k..k + |r|] && IsBlank(s[..k]) && IsBlank(s[k + |r|..])
  {
    var t := TrimStart(s);
    var r := TrimEnd(t);
    var k := |s| - |t|;
    assert r == Trim(s);
    CutAt(s, k, r);
  }

  /** The witness step of `TrimCutsBlankEnds`: a blank-bounded piece of the
      suffix after a blank prefix is a blank-bounded piece of the whole. */
  lemma CutAt(s: string, k: nat, r: string)
    requires k <= |s| && IsBlank(s[..k])
    requires |r| <= |s[k..]| && r == s[k..][..|r|] && IsBlank(s[k..][|r|..])
    ensures exists j :: 0 <= j <= |s| - |r| && r == s[j..j + |r|] && IsBlank(s[..j]) && IsBlank(s[j + |r|..])
  {
    SliceOfSuffix(s, k, |r|);
    assert r == s[k..k + |r|] && IsBlank(s[k + |r|..]);
  }

  /** `TrimStart` keeps exactly the suffix after a blank prefix that is
      followed by a non-whitespace character or by nothing. */
  lemma {:induction false} TrimStartAt(s: string, k: nat)
    requires k <= |s| && IsBlank(s[..k])
    requires k == |s| || !IsWhiteSpace(s[k])
    ensures TrimStart(s) == s[k..]
    decreases k
  {
    if k > 0 {
      assert IsWhiteSpace(s[..k][0]) && s[..k][0] == s[0];
      var tail := s[1..];
      assert tail[..k - 1] == s[..k][1..];
      assert k - 1 < |tail| ==> tail[k - 1] == s[k];
      TrimStartAt(tail, k - 1);
      assert tail[k - 1..] == s[k..];
    }
  }

  /** `TrimEnd` keeps exactly the prefix before a blank suffix that follows
      a non-whitespace character or nothing. */
  lemma TrimEndAt(s: string, k: nat)
    requires k <= |s| && IsBlank(s[k..])
    requires k == 0 || !IsWhiteSpace(s[k - 1])
    ensures TrimEnd(s) == s[..k]
  {
  }

  /** Two blank strings make a blank string. */
  lemma BlankConcat(a: string, b: string)
    requires IsBlank(a) && IsBlank(b)
    ensures IsBlank(a + b)
  {
    forall i | 0 <= i < |a + b| ensures IsWhiteSpace((a + b)[i]) {
      if i < |a| { assert (a + b)[i] == a[i]; } else { assert (a + b)[i] == b[i - |a|]; }
    }
  }

  /** The two trims of a text between whitespace: `TrimStart` drops the
      leading blank part and `TrimEnd` then the trailing one. */
  lemma TrimBetween(a: string, m: string, b: string)
    requires IsBlank(a) && IsBlank(b) && m != []
    requires !IsWhiteSpace(m[0]) && !IsWhiteSpace(m[|m| - 1])
    ensures TrimStart(a + (m + b)) == m + b
    ensures TrimEnd(m + b) == m
  {
    var t := m + b;
    var s := a + t;
    assert s[..|a|] == a && s[|a|..] == t;
    assert s[|a|] == m[0];
    TrimStartAt(s, |a|);
    assert t[|m|..] == b && t[..|m|] == m;
    assert t[|m| - 1] == m[|m| - 1];
    TrimEndAt(t, |m|);
  }

  /** Trimming a text surrounded by whitespace gives back the text, when the
      text itself neither starts nor ends with whitespace. */
  lemma TrimAround(a: string, m: string, b: string)
    requires IsBlank(a) && IsBlank(b)
    requires m == [] || (!IsWhiteSpace(m[0]) && !IsWhiteSpace(m[|m| - 1]))
    ensures Trim(a + m + b) == m
  {
    assert a + m + b == a + (m + b);
    if m == [] {
      assert m + b == b;
      BlankConcat(a, b);
    } else {
      TrimBetween(a, m, b);
    }
  }

  /** Trimming the end of a concatenation: a non-blank tail keeps the head
      intact, a blank tail disappears and the head is trimmed in turn. */
  lemma {:induction false} TrimEndAppend(a: string, b: string)
    ensures TrimEnd(a + b) == if IsBlank(b) then TrimEnd(a) else a + TrimEnd(b)
    decreases |b|
  {
    if b == [] {
      assert a + b == a;
    } else if IsWhiteSpace(b[|b| - 1]) {
      var b' := b[..|b| - 1];
      assert (a + b)[..|a + b| - 1] == a + b';
      TrimEndAppend(a, b');
      assert IsBlank(b) <==> IsBlank(b') by {
        if IsBlank(b') {
          forall i | 0 <= i < |b| ensures IsWhiteSpace(b[i]) {
            if i < |b| - 1 { assert b[i] == b'[i]; }
          }
        }
        if IsBlank(b) {
          forall i | 0 <= i < |b'| ensures IsWhiteSpace(b'[i]) {
            assert b'[i] == b[i];
          }
        }
      }
    } else {
      assert !IsBlank(b);
      assert TrimEnd(b) == b;
    }
  }
}
