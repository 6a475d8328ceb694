/** The part of Go's `strings` package the domain layer relies on:
    `strings.TrimSpace`, which removes leading and trailing white space.

    A Go string is modelled as the sequence of characters it decodes to;
    undecodable UTF-8 bytes are not modelled. */
module GoStrings {

  /** Go's `unicode.IsSpace`: the Latin-1 spaces '\t', '\n', '\v', '\f',
      '\r', ' ', U+0085 and U+00A0, plus the characters outside Latin-1
      that carry the Unicode White_Space property. */
  predicate IsSpace(c: char) {
    var k := c as int;
    || (9 <= k <= 13)
    || k == 0x20
    || k == 0x85
    || k == 0xA0
    || k == 0x1680
    || (0x2000 <= k <= 0x200A)
    || k == 0x2028
    || k == 0x2029
    || k == 0x202F
    || k == 0x205F
    || k == 0x3000
  }

  /** Every character of `s` is white space (vacuously true of ""). */
  predicate AllSpace(s: string) {
    forall i :: 0 <= i < |s| ==> IsSpace(s[i])
  }

  /** `s` neither starts nor ends with white space. */
  predicate Trimmed(s: string) {
    s == [] || (!IsSpace(s[0]) && !IsSpace(s[|s| - 1]))
  }

  /** Drops the longest all-space prefix of `s`. */
  function TrimLeft(s: string): (r: string)
    ensures |r| <= |s| && r == s[|s| - |r|..]
    ensures AllSpace(s[..|s| - |r|])
    ensures r == [] || !IsSpace(r[0])
  {
    if |s| > 0 && IsSpace(s[0]) then
      var r := TrimLeft(s[1..]);
      assert s[..|s| - |r|] == [s[0]] + s[1..][..|s| - 1 - |r|];
      r
    else
      s
  }

  /** Drops the longest all-space suffix of `s`. */
  function TrimRight(s: string): (r: string)
    ensures |r| <= |s| && r == s[..|r|]
    ensures AllSpace(s[|r|..])
    ensures r == [] || !IsSpace(r[|r| - 1])
  {
    if |s| > 0 && IsSpace(s[|s| - 1]) then
      var r := TrimRight(s[..|s| - 1]);
      assert s[|r|..] == s[..|s| - 1][|r|..] + [s[|s| - 1]];
      r
    else
      s
  }

  /** `strings.TrimSpace`: `s` with all leading and trailing white space removed. */
  function TrimSpace(s: string): (r: string)
    ensures Trimmed(r)
    ensures |r| <= |s|
  {
    TrimRight(TrimLeft(s))
  }

  /** `r` is `s` with an all-space prefix and an all-space suffix cut off,
      and `r` itself neither starts nor ends with space: an independent,
      declarative description of what trimming means. */
  ghost predicate IsTrimOf(s: string, r: string) {
    exists i, j :: 0 <= i <= j <= |s| && r == s[i..j]
                   && AllSpace(s[..i]) && AllSpace(s[j..]) && Trimmed(r)
  }

  lemma {:induction false} TrimLeftAt(s: string, i: nat)
    requires i <= |s| && AllSpace(s[..i])
    requires i == |s| || !IsSpace(s[i])
    ensures TrimLeft(s) == s[i..]
    decreases i
  {
    if i > 0 {
      assert IsSpace(s[..i][0]);
      assert s[1..][..i - 1] == s[..i][1..];
      TrimLeftAt(s[1..], i - 1);
      assert s[1..][i - 1..] == s[i..];
    }
  }

  lemma {:induction false} TrimRightAt(s: string, j: nat)
    requires j <= |s| && AllSpace(s[j..])
    requires j == 0 || !IsSpace(s[j - 1])
    ensures TrimRight(s) == s[..j]
    decreases |s| - j
  {
    if j < |s| {
      assert IsSpace(s[j..][|s| - 1 - j]);
      var s' := s[..|s| - 1];
      assert s'[j..] == s[j..][..|s| - 1 - j];
      TrimRightAt(s', j);
      assert s'[..j] == s[..j];
    }
  }

  /** Trimming is determined by the declarative description: any cut that
      satisfies it is the one `TrimSpace` makes. */
  lemma TrimSpaceUnique(s: string, i: nat, j: nat)
    requires i <= j <= |s|
    requires AllSpace(s[..i]) && AllSpace(s[j..]) && Trimmed(s[i..j])
    ensures TrimSpace(s) == s[i..j]
  {
    if i == j {
      assert AllSpace(s) by {
        forall k | 0 <= k < |s| ensures IsSpace(s[k]) {
          if k < i { assert s[k] == s[..i][k]; } else { assert s[k] == s[j..][k - j]; }
        }
      }
      TrimLeftAt(s, |s|);
      TrimRightAt(s[|s|..], 0);
    } else {
      TrimLeftAt(s, i);
      var t := s[i..];
      assert t[j - i..] == s[j..];
      assert t[j - i - 1] == s[i..j][j - i - 1];
      TrimRightAt(t, j - i);
      assert t[..j - i] == s[i..j];
    }
  }

  /** `TrimSpace` is exactly trimming in the declarative sense, both ways. */
  lemma TrimSpaceIsTheTrim(s: string, r: string)
    ensures IsTrimOf(s, r) <==> r == TrimSpace(s)
  {
    if IsTrimOf(s, r) {
      var i, j :| 0 <= i <= j <= |s| && r == s[i..j]
                  && AllSpace(s[..i]) && AllSpace(s[j..]) && Trimmed(r);
      TrimSpaceUnique(s, i, j);
    }
    if r == TrimSpace(s) {
      var l := TrimLeft(s);
      var i := |s| - |l|;
      var j := i + |TrimRight(l)|;
      assert l == s[i..];
      assert r == l[..j - i] == s[i..j];
      assert l[j - i..] == s[j..];
      assert IsTrimOf(s, r);
    }
  }

  /** The trim is empty exactly when the whole string is white space. */
  lemma TrimSpaceEmptyIffAllSpace(s: string)
    ensures TrimSpace(s) == [] <==> AllSpace(s)
  {
    if AllSpace(s) {
      TrimSpaceUnique(s, |s|, |s|);
    }
    if TrimSpace(s) == [] {
      TrimSpaceIsTheTrim(s, []);
      var i, j :| 0 <= i <= j <= |s| && [] == s[i..j]
                  && AllSpace(s[..i]) && AllSpace(s[j..]) && Trimmed([]);
      forall k | 0 <= k < |s| ensures IsSpace(s[k]) {
        if k < i { assert s[k] == s[..i][k]; } else { assert s[k] == s[j..][k - j]; }
      }
    }
  }

  /** A string is left alone by `TrimSpace` exactly when it is already
      trimmed; in particular `TrimSpace` is idempotent. */
  lemma TrimSpaceFixedIffTrimmed(s: string)
    ensures TrimSpace(s) == s <==> Trimmed(s)
    ensures TrimSpace(TrimSpace(s)) == TrimSpace(s)
  {
    if Trimmed(s) {
      assert s[..0] == [] && s[|s|..] == [] && s[0..|s|] == s;
      TrimSpaceUnique(s, 0, |s|);
    }
    var t := TrimSpace(s);
    assert t[..0] == [] && t[|t|..] == [] && t[0..|t|] == t;
    TrimSpaceUnique(t, 0, |t|);
  }
}
