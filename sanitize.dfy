/** `sanitize_filename` (main.py:19-24): keep the last path component of a
    client-supplied name and replace every character outside `[A-Za-z0-9._-]`
    with `_`, falling back to `file_<seconds>` when nothing is left. */
module Sanitize {
  import opened DecimalText

  /** Membership in the character class `[A-Za-z0-9._-]`; `SAFE_NAME` matches
      exactly the characters for which this is false. */
  predicate IsSafe(c: char)
  {
    ('A' <= c <= 'Z') || ('a' <= c <= 'z') || ('0' <= c <= '9') || c == '.' || c == '_' || c == '-'
  }

  predicate AllSafe(s: string)
  {
    forall i :: 0 <= i < |s| ==> IsSafe(s[i])
  }

  /** `os.path.basename` on a POSIX path: the text after the last `/`. */
  function Basename(path: string): (b: string)
    ensures '/' !in b
  {
    if path == [] || path[|path| - 1] == '/' then []
    else Basename(path[..|path| - 1]) + [path[|path| - 1]]
  }

  /** The basename is the longest suffix without a `/`: it is the whole path
      or starts right after the path's last `/`. */
  lemma {:induction false} BasenameIsLastComponent(path: string)
    ensures var b := Basename(path);
      && |b| <= |path| && b == path[|path| - |b|..]
      && (|b| < |path| ==> path[|path| - |b| - 1] == '/')
  {
    if path != [] && path[|path| - 1] != '/' {
      var init, last := path[..|path| - 1], path[|path| - 1];
      BasenameIsLastComponent(init);
      var b := Basename(init);
      assert Basename(path) == b + [last];
      var k := |init| - |b|;
      assert path[k..] == init[k..] + [last] by {
        assert path == init + [last];
      }
      if k > 0 {
        assert path[k - 1] == init[k - 1];
      }
    }
  }

  /** A name without `/` placed after a directory part that is empty or ends
      in `/` is the basename of the result. */
  lemma {:induction false} BasenameAfterSeparator(dir: string, name: string)
    requires dir == [] || dir[|dir| - 1] == '/'
    requires '/' !in name
    ensures Basename(dir + name) == name
  {
    if name == [] {
      assert dir + name == dir;
    } else {
      var init := name[..|name| - 1];
      BasenameAfterSeparator(dir, init);
      assert dir + name == (dir + init) + [name[|name| - 1]];
      assert (dir + name)[..|dir + name| - 1] == dir + init;
      assert name == init + [name[|name| - 1]];
    }
  }

  /** `SAFE_NAME.sub("_", s)`. */
  function ReplaceUnsafe(s: string): (r: string)
    ensures |r| == |s|
  {
    if s == [] then []
    else [if IsSafe(s[0]) then s[0] else '_'] + ReplaceUnsafe(s[1..])
  }

  /** The substitution is one `_` for each unsafe character, every safe
      character kept in its place. */
  lemma {:induction false} ReplaceUnsafeAt(s: string)
    ensures forall i :: 0 <= i < |s| ==> ReplaceUnsafe(s)[i] == (if IsSafe(s[i]) then s[i] else '_')
  {
    if s != [] {
      ReplaceUnsafeAt(s[1..]);
      assert forall i :: 1 <= i < |s| ==> ReplaceUnsafe(s)[i] == ReplaceUnsafe(s[1..])[i - 1];
    }
  }

  /** `sanitize_filename(name)`, with `int(time.time())` passed in as `seconds`. */
  function SanitizeFilename(name: string, seconds: nat): (r: string)
    ensures r != [] && AllSafe(r)
  {
    var base := ReplaceUnsafe(Basename(name));
    if base == [] then
      FallbackIsSafe(seconds);
      "file_" + Decimal(seconds)
    else
      ReplaceUnsafeAt(Basename(name));
      base
  }

  /** What sanitising keeps: a non-empty basename comes out with its length,
      each safe character in its place and `_` for each other one; an empty
      basename (an empty name, or one ending in `/`) gives the fallback
      `file_<seconds>`. The result never holds a `/`. */
  lemma SanitizeShape(name: string, seconds: nat)
    ensures var r := SanitizeFilename(name, seconds);
      && '/' !in r
      && (Basename(name) == [] ==> r == "file_" + Decimal(seconds))
      && (Basename(name) != [] ==>
            && |r| == |Basename(name)|
            && forall i :: 0 <= i < |r| ==>
                 r[i] == (if IsSafe(Basename(name)[i]) then Basename(name)[i] else '_'))
  {
    SafeHasNoSlash(SanitizeFilename(name, seconds));
    ReplaceUnsafeAt(Basename(name));
  }

  lemma SafeHasNoSlash(s: string)
    requires AllSafe(s)
    ensures '/' !in s
  {
  }

  lemma FallbackIsSafe(seconds: nat)
    ensures AllSafe("file_" + Decimal(seconds))
  {
    var d := Decimal(seconds);
    assert forall i :: 0 <= i < |d| ==> IsDigit(d[i]);
    var f := "file_" + d;
    assert forall i :: 5 <= i < |f| ==> f[i] == d[i - 5];
  }

  lemma {:induction false} BasenameOfComponent(s: string)
    requires '/' !in s
    ensures Basename(s) == s
  {
    if s != [] {
      BasenameOfComponent(s[..|s| - 1]);
      assert s == s[..|s| - 1] + [s[|s| - 1]];
    }
  }

  /** The fixed points of sanitising are exactly the non-empty names made of
      safe characters, whatever the clock says. */
  lemma SanitizeFixedPoints(s: string, seconds: nat)
    ensures SanitizeFilename(s, seconds) == s <==> s != [] && AllSafe(s)
  {
    if s != [] && AllSafe(s) {
      SafeHasNoSlash(s);
      BasenameOfComponent(s);
      ReplaceUnsafeAt(s);
      assert ReplaceUnsafe(s) == s;
    }
  }

  /** Sanitising a sanitised name changes nothing. */
  lemma SanitizeIdempotent(name: string, seconds: nat, later: nat)
    ensures SanitizeFilename(SanitizeFilename(name, seconds), later) == SanitizeFilename(name, seconds)
  {
    SanitizeFixedPoints(SanitizeFilename(name, seconds), later);
  }
}
