/** Trimming, as the standard library does it. */
module Text {

  /** The characters of Unicode's White_Space property. */
  predicate IsWhite(c: char) {
    var n := c as int;
    || 0x09 <= n <= 0x0D || n == 0x20 || n == 0x85 || n == 0xA0 || n == 0x1680
    || 0x2000 <= n <= 0x200A || n == 0x2028 || n == 0x2029 || n == 0x202F || n == 0x205F || n == 0x3000
  }

  function TrimStart(s: string): (r: string)
    ensures |r| <= |s|
  {
    if s != [] && IsWhite(s[0]) then TrimStart(s[1..]) else s
  }

  function TrimEnd(s: string): string {
    if s != [] && IsWhite(s[|s| - 1]) then TrimEnd(s[..|s| - 1]) else s
  }

  function Trim(s: string): string {
    TrimEnd(TrimStart(s))
  }

  lemma {:induction false} TrimStartExactly(s: string, i: nat)
    requires i <= |s| && (forall k :: 0 <= k < i ==> IsWhite(s[k])) && (i < |s| ==> !IsWhite(s[i]))
    ensures TrimStart(s) == s[i..]
    decreases i
  {
    if i > 0 {
      TrimStartExactly(s[1..], i - 1);
      assert s[1..][i - 1..] == s[i..];
    }
  }

  lemma {:induction false} TrimEndExactly(s: string, j: nat)
    requires j <= |s| && (forall k :: j <= k < |s| ==> IsWhite(s[k])) && (j > 0 ==> !IsWhite(s[j - 1]))
    ensures TrimEnd(s) == s[..j]
    decreases |s|
  {
    if j < |s| {
      TrimEndExactly(s[..|s| - 1], j);
      assert s[..|s| - 1][..j] == s[..j];
    } else {
      assert s[..j] == s;
    }
  }

  /** Trimming leaves what stands between the white ends. */
  lemma {:induction false} TrimExactly(s: string, i: nat, j: nat)
    requires i <= j <= |s| && (forall k :: 0 <= k < |s| && !(i <= k < j) ==> IsWhite(s[k]))
    requires i < j ==> !IsWhite(s[i]) && !IsWhite(s[j - 1])
    ensures Trim(s) == s[i..j]
  {
    if i == j {
      TrimStartExactly(s, |s|);
    } else {
      TrimStartExactly(s, i);
      TrimEndExactly(s[i..], j - i);
      assert s[i..][..j - i] == s[i..j];
    }
  }
}
