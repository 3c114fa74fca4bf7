/**
 * The few Python string built-ins the application relies on: `sep.join(parts)`
 * and `s.strip()`, with the whitespace class Python's `str.strip()` uses.
 */
module Text {

  /**
   * The characters Python's argument-less `str.strip()` removes: the
   * Unicode whitespace class of `str.isspace()`.
   */
  predicate IsSpace(c: char)
  {
    ('\t' <= c <= '\r') || ('\U{1C}' <= c <= '\U{1F}') || c == ' ' || c == '\U{85}' || c == '\U{A0}'
    || c == '\U{1680}' || ('\U{2000}' <= c <= '\U{200A}') || c == '\U{2028}' || c == '\U{2029}'
    || c == '\U{202F}' || c == '\U{205F}' || c == '\U{3000}'
  }

  /** True when every character of `s` is whitespace (so `s.strip()` is empty). */
  ghost predicate AllSpace(s: string)
  {
    forall i :: 0 <= i < |s| ==> IsSpace(s[i])
  }

  /** True when `s` has no leading and no trailing whitespace. */
  ghost predicate IsStripped(s: string)
  {
    s == [] || (!IsSpace(s[0]) && !IsSpace(s[|s| - 1]))
  }

  /** Python's `sep.join(parts)`. */
  function Join(parts: seq<string>, sep: string): string
  {
    if |parts| == 0 then ""
    else if |parts| == 1 then parts[0]
    else parts[0] + sep + Join(parts[1..], sep)
  }

  /** Python's `s.lstrip()`: drops the leading whitespace and nothing else. */
  function TrimStart(s: string): (r: string)
    ensures |r| <= |s| && r == s[|s| - |r|..]
    ensures forall i :: 0 <= i < |s| - |r| ==> IsSpace(s[i])
    ensures r == [] || !IsSpace(r[0])
  {
    if s != [] && IsSpace(s[0]) then TrimStart(s[1..]) else s
  }

  /** Python's `s.rstrip()`: drops the trailing whitespace and nothing else. */
  function TrimEnd(s: string): (r: string)
    ensures |r| <= |s| && r == s[..|r|]
    ensures forall i :: |r| <= i < |s| ==> IsSpace(s[i])
    ensures r == [] || !IsSpace(r[|r| - 1])
  {
    if s != [] && IsSpace(s[|s| - 1]) then TrimEnd(s[..|s| - 1]) else s
  }

  /**
   * Python's `s.strip()`: the result has no whitespace at either end, and it
   * is empty exactly when `s` is all whitespace.  `StripKeepsMiddle` says
   * that it is what lies between the whitespace cut from both ends.
   */
  function Strip(s: string): (r: string)
    ensures IsStripped(r)
    ensures r == [] <==> AllSpace(s)
  {
    var t := TrimStart(s);
    var r := TrimEnd(t);
    StripEnds(s, t, r);
    r
  }

  /** `strip()` keeps a contiguous piece of `s` and cuts only whitespace around it. */
  lemma StripKeepsMiddle(s: string)
    ensures exists pre, post :: s == pre + Strip(s) + post && AllSpace(pre) && AllSpace(post)
  {
    var t := TrimStart(s);
    CutAround(s, t, TrimEnd(t));
  }

  /** `r`, the `rstrip()` of the `lstrip()` of `s`, lies between two runs of whitespace. */
  lemma CutAround(s: string, t: string, r: string)
    requires t == TrimStart(s) && r == TrimEnd(t)
    ensures exists pre, post :: s == pre + r + post && AllSpace(pre) && AllSpace(post)
  {
    Decompose(s, t, r);
    TrimStartCut(s, t);
    TrimEndCut(t, r);
    Between(s, s[..|s| - |t|], r, t[|r|..]);
  }

  lemma Between(s: string, pre: string, r: string, post: string)
    requires s == pre + r + post && AllSpace(pre) && AllSpace(post)
    ensures exists pre, post :: s == pre + r + post && AllSpace(pre) && AllSpace(post)
  {
  }

  /** What `lstrip()` cuts away is whitespace. */
  lemma TrimStartCut(s: string, t: string)
    requires t == TrimStart(s)
    ensures AllSpace(s[..|s| - |t|])
  {
  }

  /** What `rstrip()` cuts away is whitespace. */
  lemma TrimEndCut(t: string, r: string)
    requires r == TrimEnd(t)
    ensures AllSpace(t[|r|..])
  {
  }

  /** What `strip()` keeps has no whitespace at its ends and is empty only for blank input. */
  lemma StripEnds(s: string, t: string, r: string)
    requires t == TrimStart(s) && r == TrimEnd(t)
    ensures IsStripped(r)
    ensures r == [] <==> AllSpace(s)
  {
    if r != [] {
      assert r[0] == t[0];
    }
    if t != [] {
      assert t[0] == s[|s| - |t|];
    }
  }

  /** A prefix `r` of a suffix `t` of `s` splits `s` into three pieces. */
  lemma Decompose(s: string, t: string, r: string)
    requires |r| <= |t| && r == t[..|r|]
    requires |t| <= |s| && t == s[|s| - |t|..]
    ensures s == s[..|s| - |t|] + r + t[|r|..]
  {
    assert t == r + t[|r|..];
    assert s == s[..|s| - |t|] + t;
    assert s[..|s| - |t|] + r + t[|r|..] == s[..|s| - |t|] + (r + t[|r|..]);
  }

  /** Stripping twice is stripping once. */
  lemma StripIdempotent(s: string)
    ensures Strip(Strip(s)) == Strip(s)
  {
    StrippedIsFixpoint(Strip(s));
  }

  /** A string with no whitespace at its ends is left alone by `strip()`. */
  lemma StrippedIsFixpoint(s: string)
    requires IsStripped(s)
    ensures Strip(s) == s
  {
    assert TrimStart(s) == s;
    assert TrimEnd(s) == s;
  }

  /** `Join` with a separator made of whitespace is all whitespace exactly when every part is. */
  lemma {:induction false} JoinAllSpace(parts: seq<string>, sep: string)
    requires AllSpace(sep)
    ensures AllSpace(Join(parts, sep)) <==> forall j :: 0 <= j < |parts| ==> AllSpace(parts[j])
  {
    if |parts| >= 2 {
      JoinAllSpace(parts[1..], sep);
      var rest := Join(parts[1..], sep);
      var whole := parts[0] + sep + rest;
      assert whole == Join(parts, sep);
      if AllSpace(whole) {
        forall k | 0 <= k < |parts[0]| ensures IsSpace(parts[0][k]) { assert whole[k] == parts[0][k]; }
        forall k | 0 <= k < |rest| ensures IsSpace(rest[k]) { assert whole[|parts[0]| + |sep| + k] == rest[k]; }
        forall j | 0 <= j < |parts| ensures AllSpace(parts[j]) {
          if j > 0 { assert parts[j] == parts[1..][j - 1]; }
        }
      }
      if forall j :: 0 <= j < |parts| ==> AllSpace(parts[j]) {
        forall j | 0 <= j < |parts| - 1 ensures AllSpace(parts[1..][j]) {
          assert parts[1..][j] == parts[j + 1];
        }
        assert AllSpace(parts[0]);
      }
    }
  }

  /** `Join` of non-empty parts is empty exactly when there are no parts. */
  lemma JoinEmptyIff(parts: seq<string>, sep: string)
    requires forall j :: 0 <= j < |parts| ==> parts[j] != ""
    ensures Join(parts, sep) == "" <==> parts == []
  {
    if |parts| >= 1 {
      assert |Join(parts, sep)| >= |parts[0]|;
    }
  }

  /** The `strip()` of every element, in order. */
  function StripAll(raw: seq<string>): (r: seq<string>)
    ensures |r| == |raw|
    ensures forall i :: 0 <= i < |raw| ==> r[i] == Strip(raw[i])
  {
    if raw == [] then [] else [Strip(raw[0])] + StripAll(raw[1..])
  }
}
