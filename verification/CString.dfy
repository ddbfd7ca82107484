/** strncmp as used by the file system, on byte sequences that read as NUL past their end. */
module CString {
  import opened BlockFormat

  function At(s: seq<byte>, i: nat): byte {
    if i < |s| then s[i] else 0
  }

  /** strncmp(p + i, q + i, n - i) == 0. */
  predicate StrEqFrom(p: seq<byte>, q: seq<byte>, i: nat, n: nat)
    decreases n - i
  {
    if i >= n then true
    else if At(p, i) != 0 && At(p, i) == At(q, i) then StrEqFrom(p, q, i + 1, n)
    else At(p, i) == At(q, i)
  }

  predicate StrEq(p: seq<byte>, q: seq<byte>, n: nat) {
    StrEqFrom(p, q, 0, n)
  }

  /** The part of s that strncmp looks at: up to n bytes, cut at the first NUL. */
  function Cut(s: seq<byte>, i: nat, n: nat): (r: seq<byte>)
    ensures |r| <= if i <= n then n - i else 0
    decreases n - i
  {
    if i >= n || At(s, i) == 0 then [] else [At(s, i)] + Cut(s, i + 1, n)
  }

  /** It is a prefix without NULs, and it ends after n bytes, at a NUL, or with s. */
  lemma {:induction false} CutIs(s: seq<byte>, i: nat, n: nat)
    requires i <= |s| && i <= n
    ensures var e := i + |Cut(s, i, n)|;
      && e <= |s| && e <= n && Cut(s, i, n) == s[i..e] && (forall k :: i <= k < e ==> s[k] != 0)
      && (e == n || e == |s| || s[e] == 0)
    decreases n - i
  {
    if i < n && At(s, i) != 0 {
      CutIs(s, i + 1, n);
    }
  }

  /** strncmp says equal exactly when the two cut strings are the same. */
  lemma {:induction false} StrEqIsCut(p: seq<byte>, q: seq<byte>, i: nat, n: nat)
    ensures StrEqFrom(p, q, i, n) <==> Cut(p, i, n) == Cut(q, i, n)
    decreases n - i
  {
    if i < n {
      StrEqIsCut(p, q, i + 1, n);
      if At(p, i) != 0 && At(q, i) != 0 {
        var l, r := Cut(p, i + 1, n), Cut(q, i + 1, n);
        assert Cut(p, i, n)[1..] == l && Cut(q, i, n)[1..] == r;
      }
    }
  }

  lemma StrEqSame(p: seq<byte>, n: nat)
    ensures StrEq(p, p, n)
  {
    StrEqIsCut(p, p, 0, n);
  }

  lemma StrEqSym(p: seq<byte>, q: seq<byte>, n: nat)
    ensures StrEq(p, q, n) <==> StrEq(q, p, n)
  {
    StrEqIsCut(p, q, 0, n);
    StrEqIsCut(q, p, 0, n);
  }
}
