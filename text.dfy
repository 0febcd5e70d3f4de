/** The string operations the reshaper relies on: Python's `str.strip()`, an ASCII model of
    `str.lower()`, and the `startswith` / `endswith` / `in` tests. */
module Text {

  /** The characters Python's `str.isspace()` accepts, which `str.strip()` removes. */
  predicate IsSpace(ch: char)
  {
    ('\t' <= ch <= '\r') || ('\U{1C}' <= ch <= ' ') || ch == '\U{85}' || ch == '\U{A0}'
    || ch == '\U{1680}' || ('\U{2000}' <= ch <= '\U{200A}') || ch == '\U{2028}'
    || ch == '\U{2029}' || ch == '\U{202F}' || ch == '\U{205F}' || ch == '\U{3000}'
  }

  predicate AllSpace(s: string)
  {
    forall i :: 0 <= i < |s| ==> IsSpace(s[i])
  }

  /** `s` with its leading whitespace removed. */
  function TrimStart(s: string): (r: string)
    ensures |r| <= |s| && r == s[|s| - |r|..]
    ensures AllSpace(s[..|s| - |r|])
    ensures r != [] ==> !IsSpace(r[0])
  {
    if s != [] && IsSpace(s[0]) then
      var r := TrimStart(s[1..]);
      var n := |s| - |r|;
      assert s[1..][n - 1..] == s[n..];
      assert s[..n] == [s[0]] + s[1..][..n - 1];
      r
    else s
  }

  /** `s` with its trailing whitespace removed. */
  function TrimEnd(s: string): (r: string)
    ensures |r| <= |s| && r == s[..|r|]
    ensures AllSpace(s[|r|..])
    ensures r != [] ==> !IsSpace(r[|r| - 1])
  {
    if s != [] && IsSpace(s[|s| - 1]) then
      var r := TrimEnd(s[..|s| - 1]);
      assert s[|r|..] == s[..|s| - 1][|r|..] + [s[|s| - 1]];
      r
    else s
  }

  /** Python's `s.strip()`. */
  function Strip(s: string): string
  {
    TrimEnd(TrimStart(s))
  }

  lemma {:induction false} TrimStartSkips(pre: string, rest: string)
    requires AllSpace(pre)
    requires rest != [] ==> !IsSpace(rest[0])
    ensures TrimStart(pre + rest) == rest
  {
    if pre == [] {
      assert pre + rest == rest;
    } else {
      assert (pre + rest)[1..] == pre[1..] + rest;
      TrimStartSkips(pre[1..], rest);
    }
  }

  lemma {:induction false} TrimEndSkips(rest: string, post: string)
    requires AllSpace(post)
    requires rest != [] ==> !IsSpace(rest[|rest| - 1])
    ensures TrimEnd(rest + post) == rest
  {
    if post == [] {
      assert rest + post == rest;
    } else {
      var init := post[..|post| - 1];
      assert (rest + post)[..|rest + post| - 1] == rest + init;
      TrimEndSkips(rest, init);
    }
  }

  /** Stripping removes exactly the whitespace around a core that neither starts nor ends with it. */
  lemma StripPadded(pre: string, core: string, post: string)
    requires AllSpace(pre) && AllSpace(post)
    requires core != [] && !IsSpace(core[0]) && !IsSpace(core[|core| - 1])
    ensures Strip(pre + core + post) == core
  {
    assert pre + core + post == pre + (core + post);
    TrimStartSkips(pre, core + post);
    TrimEndSkips(core, post);
  }

  /** `s` is a single '1' with only whitespace around it. */
  predicate IsPaddedOne(s: string)
  {
    exists k :: 0 <= k < |s| && s[k] == '1' && AllSpace(s[..k]) && AllSpace(s[k + 1..])
  }

  /** The literal test `str(x).strip() == "1"` accepts exactly the padded ones. */
  lemma StripIsOne(s: string)
    ensures Strip(s) == "1" <==> IsPaddedOne(s)
  {
    if Strip(s) == "1" {
      StripOneIsPadded(s);
    }
    if IsPaddedOne(s) {
      var k :| 0 <= k < |s| && s[k] == '1' && AllSpace(s[..k]) && AllSpace(s[k + 1..]);
      PaddedOneStrips(s, k);
    }
  }

  lemma StripOneIsPadded(s: string)
    requires Strip(s) == "1"
    ensures IsPaddedOne(s)
  {
    var t := TrimStart(s);
    var k := |s| - |t|;
    assert TrimEnd(t) == "1";
    assert t[..1] == "1" && AllSpace(t[1..]);
    assert s[k] == '1' && s[k + 1..] == t[1..];
  }

  lemma PaddedOneStrips(s: string, k: nat)
    requires k < |s| && s[k] == '1' && AllSpace(s[..k]) && AllSpace(s[k + 1..])
    ensures Strip(s) == "1"
  {
    assert s == s[..k] + "1" + s[k + 1..];
    StripPadded(s[..k], "1", s[k + 1..]);
  }

  function LowerChar(ch: char): char
  {
    if 'A' <= ch <= 'Z' then (ch as int + 32) as char else ch
  }

  /** `str.lower()` on ASCII letters; every other character is left as it is. */
  function Lower(s: string): string
  {
    seq(|s|, i requires 0 <= i < |s| => LowerChar(s[i]))
  }

  predicate StartsWith(s: string, prefix: string)
  {
    |prefix| <= |s| && s[..|prefix|] == prefix
  }

  predicate EndsWith(s: string, suffix: string)
  {
    |suffix| <= |s| && s[|s| - |suffix|..] == suffix
  }

  /** Python's `needle in s`. */
  predicate Contains(s: string, needle: string)
    decreases |s|
  {
    StartsWith(s, needle) || (s != [] && Contains(s[1..], needle))
  }

  /** A string in which the first two characters of `needle` never stand side by side does
      not contain `needle`. */
  lemma {:induction false} NoPairNoMatch(s: string, needle: string)
    requires |needle| >= 2
    requires forall i :: 0 <= i < |s| - 1 ==> !(s[i] == needle[0] && s[i + 1] == needle[1])
    ensures !Contains(s, needle)
  {
    if s != [] {
      NoPairNoMatch(s[1..], needle);
      assert |s| < |needle| || s[..|needle|][0] != needle[0] || s[..|needle|][1] != needle[1];
    }
  }

  /** `Contains` holds exactly when `needle` starts at some position of `s`. */
  lemma {:induction false} ContainsAt(s: string, needle: string)
    ensures Contains(s, needle) <==> exists i :: 0 <= i <= |s| && StartsWith(s[i..], needle)
    decreases |s|
  {
    if StartsWith(s, needle) {
      assert s[0..] == s;
    }
    if s != [] {
      ContainsAt(s[1..], needle);
      if exists i :: 0 <= i <= |s| && StartsWith(s[i..], needle) {
        var i :| 0 <= i <= |s| && StartsWith(s[i..], needle);
        if i > 0 {
          assert s[1..][i - 1..] == s[i..];
        } else {
          assert s[i..] == s;
        }
      }
      if Contains(s[1..], needle) {
        var i :| 0 <= i <= |s| - 1 && StartsWith(s[1..][i..], needle);
        assert s[1..][i..] == s[i + 1..];
      }
    } else {
      if exists i :: 0 <= i <= |s| && StartsWith(s[i..], needle) {
        var i :| 0 <= i <= |s| && StartsWith(s[i..], needle);
        assert s[i..] == s;
      }
    }
  }
}
