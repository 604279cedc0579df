/**
  Character-string helpers of the markup tokenizer (the static members
  `substring`, `case_substring`, `name_substring`, `case_name_substring` and
  `spaces` of `Fl_Html_Tokenizer`).

  A C string argument is a `seq<char>` read up to its first NUL character. A
  source argument comes with a length `srcLen`: a negative length means "unknown
  but null-terminated", a non-negative one is the most the function may read.
  `View(src, srcLen)` is exactly the part of `src` such a function may look at.
*/
module Text {

  /** The contents of a null-terminated string: everything before the first NUL. */
  function CStr(s: seq<char>): (r: seq<char>)
    ensures r <= s
    ensures '\0' !in r
    ensures |r| < |s| ==> s[|r|] == '\0'
  {
    if s == [] || s[0] == '\0' then [] else [s[0]] + CStr(s[1..])
  }

  /** The characters of `src` a helper may read when it is given length `srcLen`. */
  function View(src: seq<char>, srcLen: int): (r: seq<char>)
    ensures r <= CStr(src)
    ensures srcLen >= 0 ==> |r| <= srcLen
    ensures srcLen < 0 || |CStr(src)| <= srcLen ==> r == CStr(src)
  {
    var c := CStr(src);
    if 0 <= srcLen < |c| then c[..srcLen] else c
  }

  /** The C locale's `isspace`. */
  predicate IsSpace(c: char)
  {
    c == ' ' || c == '\t' || c == '\n' || c == '\r' || c == '\U{0B}' || c == '\U{0C}'
  }

  /**
    The characters that may follow a tag or attribute name: white space, the
    end of a tag, the '=' before an attribute value and the '/' of "/>".
  */
  predicate IsNameTerminator(c: char)
  {
    IsSpace(c) || c == '>' || c == '=' || c == '/'
  }

  /** ASCII lower-casing, as the case-insensitive comparisons use it. */
  function Lower(c: char): char
  {
    if 'A' <= c <= 'Z' then (c as int + 32) as char else c
  }

  predicate CaseEqual(a: seq<char>, b: seq<char>)
  {
    |a| == |b| && forall i :: 0 <= i < |a| ==> Lower(a[i]) == Lower(b[i])
  }

  predicate StartsWith(s: seq<char>, p: seq<char>)
  {
    |p| <= |s| && s[..|p|] == p
  }

  predicate CaseStartsWith(s: seq<char>, p: seq<char>)
  {
    |p| <= |s| && CaseEqual(s[..|p|], p)
  }

  /**
    `substring(src, to, src_len)`: the length of `to` if `to` starts `src`
    (within `srcLen`), otherwise 0.
  */
  function Substring(src: seq<char>, to: seq<char>, srcLen: int): (r: int)
    ensures 0 <= r <= |CStr(to)|
    ensures r != 0 <==> CStr(to) != [] && StartsWith(View(src, srcLen), CStr(to))
    ensures r != 0 ==> r == |CStr(to)| && src[..r] == CStr(to)
    ensures srcLen >= 0 ==> r <= srcLen
  {
    var t := CStr(to);
    if StartsWith(View(src, srcLen), t) then |t| else 0
  }

  /** `case_substring`: as `Substring`, ignoring ASCII case. */
  function CaseSubstring(src: seq<char>, to: seq<char>, srcLen: int): (r: int)
    ensures 0 <= r <= |CStr(to)|
    ensures r != 0 <==> CStr(to) != [] && CaseStartsWith(View(src, srcLen), CStr(to))
    ensures r != 0 ==> r == |CStr(to)| && CaseEqual(src[..r], CStr(to))
    ensures srcLen >= 0 ==> r <= srcLen
  {
    var t := CStr(to);
    if CaseStartsWith(View(src, srcLen), t) then |t| else 0
  }

  /**
    `name_substring`: as `Substring`, but only when the match ends the readable
    part of `src` or is followed by a name terminator.
  */
  function NameSubstring(src: seq<char>, to: seq<char>, srcLen: int): (r: int)
    ensures 0 <= r <= |CStr(to)|
    ensures r != 0 ==> r == Substring(src, to, srcLen)
    ensures r != 0 ==> r == |View(src, srcLen)| || IsNameTerminator(View(src, srcLen)[r])
    ensures 0 < srcLen < |CStr(to)| ==> r == 0
    ensures CStr(to) != [] && StartsWith(View(src, srcLen), CStr(to))
            && (|View(src, srcLen)| == |CStr(to)| || IsNameTerminator(View(src, srcLen)[|CStr(to)|]))
            ==> r == |CStr(to)|
  {
    var t := CStr(to);
    var v := View(src, srcLen);
    if StartsWith(v, t) && (|v| == |t| || IsNameTerminator(v[|t|])) then |t| else 0
  }

  /** `case_name_substring`: as `NameSubstring`, ignoring ASCII case. */
  function CaseNameSubstring(src: seq<char>, to: seq<char>, srcLen: int): (r: int)
    ensures 0 <= r <= |CStr(to)|
    ensures r != 0 ==> r == CaseSubstring(src, to, srcLen)
    ensures r != 0 ==> r == |View(src, srcLen)| || IsNameTerminator(View(src, srcLen)[r])
    ensures 0 < srcLen < |CStr(to)| ==> r == 0
    ensures CStr(to) != [] && CaseStartsWith(View(src, srcLen), CStr(to))
            && (|View(src, srcLen)| == |CStr(to)| || IsNameTerminator(View(src, srcLen)[|CStr(to)|]))
            ==> r == |CStr(to)|
  {
    var t := CStr(to);
    var v := View(src, srcLen);
    if CaseStartsWith(v, t) && (|v| == |t| || IsNameTerminator(v[|t|])) then |t| else 0
  }

  /** The number of white-space characters that start `v`. */
  function LeadingSpaces(v: seq<char>): (r: nat)
    ensures r <= |v|
    ensures forall i :: 0 <= i < r ==> IsSpace(v[i])
    ensures r < |v| ==> !IsSpace(v[r])
  {
    if v == [] || !IsSpace(v[0]) then 0 else 1 + LeadingSpaces(v[1..])
  }

  /** `spaces(str, len)`: the white space that starts the readable part of `str`. */
  function Spaces(str: seq<char>, len: int): (r: nat)
    ensures r <= |View(str, len)|
    ensures forall i :: 0 <= i < r ==> IsSpace(str[i])
    ensures r < |View(str, len)| ==> !IsSpace(str[r])
  {
    LeadingSpaces(View(str, len))
  }

  // ---------------------------------------------------------------------
  // Properties of the helpers

  /** A run of non-NUL characters is read through: it stays in front of whatever the rest reads as. */
  lemma {:induction false} CStrConcat(w: seq<char>, rest: seq<char>)
    requires '\0' !in w
    ensures CStr(w + rest) == w + CStr(rest)
  {
    if w == [] {
      assert w + rest == rest;
    } else {
      assert w[0] in w;
      assert '\0' !in w[1..] by {
        forall c | c in w[1..] ensures c in w { }
      }
      CStrConcat(w[1..], rest);
      CStrCons(w[0], w[1..] + rest);
      assert w + rest == [w[0]] + (w[1..] + rest);
      assert w + CStr(rest) == [w[0]] + (w[1..] + CStr(rest));
    }
  }

  lemma CStrCons(c: char, x: seq<char>)
    requires c != '\0'
    ensures CStr([c] + x) == [c] + CStr(x)
  {
    assert ([c] + x)[1..] == x;
  }

  /** Dropping characters that are read leaves the rest of the string to be read. */
  lemma {:induction false} CStrDrop(s: seq<char>, k: nat)
    requires k <= |CStr(s)|
    ensures CStr(s[k..]) == CStr(s)[k..]
  {
    if k > 0 {
      assert s[k..] == s[1..][k - 1..];
      CStrDrop(s[1..], k - 1);
    }
  }

  /** The readable contents of a buffer depend only on its first `n` characters, for `n` reachable. */
  lemma {:induction false} CStrAgrees(s: seq<char>, t: seq<char>, n: nat)
    requires n <= |s| && n <= |t| && s[..n] == t[..n]
    ensures |CStr(s)| < n ==> CStr(t) == CStr(s)
    ensures |CStr(s)| >= n ==> |CStr(t)| >= n && CStr(t)[..n] == CStr(s)[..n]
  {
    if n > 0 {
      assert s[0] == t[0];
      if s[0] != '\0' {
        assert s[1..][..n - 1] == s[..n][1..] == t[..n][1..] == t[1..][..n - 1];
        CStrAgrees(s[1..], t[1..], n - 1);
      }
    }
  }

  /**
    Given a length, the helpers never look past it: the readable part of `src`
    is the same whatever follows its first `srcLen` characters.
  */
  lemma ViewWithinLength(src: seq<char>, junk: seq<char>, srcLen: nat)
    requires srcLen <= |src|
    ensures View(src[..srcLen] + junk, srcLen) == View(src, srcLen)
  {
    var t := src[..srcLen] + junk;
    assert t[..srcLen] == src[..srcLen];
    CStrAgrees(src, t, srcLen);
  }

  /** Consequently no prefix match reads past the declared length. */
  lemma SubstringWithinLength(src: seq<char>, junk: seq<char>, to: seq<char>, srcLen: nat)
    requires srcLen <= |src|
    ensures Substring(src[..srcLen] + junk, to, srcLen) == Substring(src, to, srcLen)
    ensures CaseSubstring(src[..srcLen] + junk, to, srcLen) == CaseSubstring(src, to, srcLen)
    ensures NameSubstring(src[..srcLen] + junk, to, srcLen) == NameSubstring(src, to, srcLen)
    ensures CaseNameSubstring(src[..srcLen] + junk, to, srcLen) == CaseNameSubstring(src, to, srcLen)
  {
    ViewWithinLength(src, junk, srcLen);
  }

  /** A case-sensitive match is also a case-insensitive one, of the same length. */
  lemma CaseMatchesWeaker(src: seq<char>, to: seq<char>, srcLen: int)
    ensures Substring(src, to, srcLen) != 0 ==> CaseSubstring(src, to, srcLen) == Substring(src, to, srcLen)
    ensures NameSubstring(src, to, srcLen) != 0 ==> CaseNameSubstring(src, to, srcLen) == NameSubstring(src, to, srcLen)
  {
  }
}
