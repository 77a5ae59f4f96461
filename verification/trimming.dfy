/**
 `String.prototype.trim` (ECMA-262 TrimString with `where` = start+end):
 the copy of a string with its leading and trailing whitespace removed.

 `Trim` computes it from the lengths of the whitespace runs at both ends;
 `IsTrimOf` is the independent description (the string splits into a
 whitespace prefix, a body with no whitespace at either edge, and a
 whitespace suffix), and `TrimCharacterised` proves the two agree.
 */
module Trimming {
  import opened JsText

  /** Length of the maximal run of whitespace at the start of `s`. */
  function LeadingWs(s: JsString): (n: nat)
    ensures n <= |s|
    ensures forall k | 0 <= k < n :: IsWs(s[k])
    ensures n < |s| ==> !IsWs(s[n])
  {
    if |s| == 0 || !IsWs(s[0]) then 0 else 1 + LeadingWs(s[1..])
  }

  /** Length of the maximal run of whitespace at the end of `s`. */
  function TrailingWs(s: JsString): (n: nat)
    ensures n <= |s|
    ensures forall k | |s| - n <= k < |s| :: IsWs(s[k])
    ensures n < |s| ==> !IsWs(s[|s| - n - 1])
  {
    if |s| == 0 || !IsWs(s[|s| - 1]) then 0 else 1 + TrailingWs(s[..|s| - 1])
  }

  /** `s.trim()`. */
  function Trim(s: JsString): (t: JsString)
    ensures |t| <= |s|
    ensures NoEdgeWs(t)
    ensures |t| == 0 <==> AllWs(s)
  {
    var lo := LeadingWs(s);
    if lo == |s| then []
    else
      s[lo..|s| - TrailingWs(s)]
  }

  /** `t` is what remains of `s` once whitespace is stripped from both ends. */
  ghost predicate IsTrimOf(t: JsString, s: JsString) {
    exists i, j | 0 <= i <= j <= |s| ::
      && t == s[i..j]
      && AllWs(s[..i])
      && AllWs(s[j..])
      && NoEdgeWs(t)
  }

  /** Any split of `s` into a whitespace prefix, a body without edge
      whitespace and a whitespace suffix has `Trim(s)` as its body. */
  lemma TrimUnique(s: JsString, i: nat, j: nat)
    requires i <= j <= |s|
    requires AllWs(s[..i]) && AllWs(s[j..]) && NoEdgeWs(s[i..j])
    ensures Trim(s) == s[i..j]
  {
    var lo := LeadingWs(s);
    var tr := TrailingWs(s);
    if i == j {
      forall k | 0 <= k < |s| ensures IsWs(s[k]) {
        if k < i { assert s[..i][k] == s[k]; } else { assert s[j..][k - j] == s[k]; }
      }
    } else {
      assert !IsWs(s[i]) by { assert s[i..j][0] == s[i]; }
      assert !IsWs(s[j - 1]) by { assert s[i..j][j - i - 1] == s[j - 1]; }
      assert lo == i;
      assert |s| - tr == j;
    }
  }

  /** Where `Trim(s)` sits inside `s`: between a whitespace prefix and a
      whitespace suffix. */
  lemma TrimSplit(s: JsString) returns (i: nat, j: nat)
    ensures i <= j <= |s|
    ensures Trim(s) == s[i..j]
    ensures AllWs(s[..i]) && AllWs(s[j..])
  {
    i := LeadingWs(s);
    if i == |s| {
      j := i;
    } else {
      j := |s| - TrailingWs(s);
    }
  }

  /** The reference description and the computation agree, both ways. */
  lemma TrimCharacterised(s: JsString, t: JsString)
    ensures IsTrimOf(t, s) <==> t == Trim(s)
  {
    if IsTrimOf(t, s) {
      var i, j :| 0 <= i <= j <= |s| && t == s[i..j] && AllWs(s[..i]) && AllWs(s[j..]) && NoEdgeWs(t);
      TrimUnique(s, i, j);
    }
    if t == Trim(s) {
      var i, j := TrimSplit(s);
    }
  }

  /** Trimming is idempotent. */
  lemma TrimIdempotent(s: JsString)
    ensures Trim(Trim(s)) == Trim(s)
  {
    var t := Trim(s);
    assert t[0..|t|] == t;
    TrimUnique(t, 0, |t|);
  }

  lemma AllWsConcat(a: JsString, b: JsString)
    requires AllWs(a) && AllWs(b)
    ensures AllWs(a + b)
  {
    forall k | 0 <= k < |a + b| ensures IsWs((a + b)[k]) {
      if k >= |a| { assert (a + b)[k] == b[k - |a|]; }
    }
  }

  /** Whitespace added at either end is removed again by `trim`. */
  lemma TrimIgnoresPadding(p: JsString, s: JsString, q: JsString)
    requires AllWs(p) && AllWs(q)
    ensures Trim(p + s + q) == Trim(s)
  {
    var i, j := TrimSplit(s);
    var u := p + s + q;
    var i', j' := |p| + i, |p| + j;
    assert u[i'..j'] == s[i..j];
    assert u[..i'] == p + s[..i];
    assert u[j'..] == s[j..] + q;
    AllWsConcat(p, s[..i]);
    AllWsConcat(s[j..], q);
    TrimUnique(u, i', j');
  }

  /** An inward scan from both ends finds the same bounds as `Trim`. */
  method ScanTrim(s: JsString) returns (lo: nat, hi: nat)
    ensures lo <= hi <= |s|
    ensures AllWs(s[..lo]) && AllWs(s[hi..])
    ensures s[lo..hi] == Trim(s)
  {
    lo := 0;
    while lo < |s| && IsWs(s[lo])
      invariant lo <= |s|
      invariant forall k | 0 <= k < lo :: IsWs(s[k])
    {
      lo := lo + 1;
    }
    hi := |s|;
    while hi > lo && IsWs(s[hi - 1])
      invariant lo <= hi <= |s|
      invariant forall k | hi <= k < |s| :: IsWs(s[k])
    {
      hi := hi - 1;
    }
    if lo < hi {
      assert s[lo..hi][0] == s[lo];
      assert s[lo..hi][hi - lo - 1] == s[hi - 1];
    }
    TrimUnique(s, lo, hi);
  }
}
