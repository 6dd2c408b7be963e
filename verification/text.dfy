/**
  The handful of Ruby 1.8 string and path primitives the synchroniser leans on:
  `String#delete` with one character, `String#strip`, `String#chomp` with no
  argument, `String#split("\n")` and `File.basename` with one argument.
  Each is defined on `seq<char>` and given a contract that characterises it,
  so that the parsers built from them can be reasoned about without unfolding.
 */
module RubyText {

  /** Characters `strip` removes from the front of a string. */
  predicate IsSpace(c: char) {
    c == ' ' || c == '\t' || c == '\n' || c == '\U{B}' || c == '\U{C}' || c == '\r'
  }

  /** Characters `strip` removes from the back of a string: blanks and NUL. */
  predicate IsTrailingBlank(c: char) {
    IsSpace(c) || c == '\0'
  }

  // ---------------------------------------------------------------------------
  // String#delete(c)
  // ---------------------------------------------------------------------------

  /** Every occurrence of `c` removed; every other character kept, in order. */
  function Delete(s: string, c: char): (r: string)
    ensures c !in r
    ensures |r| == |s| - multiset(s)[c]
    ensures forall x :: x != c ==> multiset(r)[x] == multiset(s)[x]
  {
    if s == [] then []
    else
      assert s == [s[0]] + s[1..];
      if s[0] == c then Delete(s[1..], c) else [s[0]] + Delete(s[1..], c)
  }

  /** Deleting a character that does not occur changes nothing. */
  lemma {:induction false} DeleteAbsent(s: string, c: char)
    requires c !in s
    ensures Delete(s, c) == s
  {
    if s != [] {
      DeleteAbsent(s[1..], c);
    }
  }

  /** Deletion works piecewise on a concatenation. */
  lemma {:induction false} DeleteAppend(a: string, b: string, c: char)
    ensures Delete(a + b, c) == Delete(a, c) + Delete(b, c)
  {
    if a == [] {
      assert a + b == b;
    } else {
      assert (a + b)[0] == a[0];
      assert (a + b)[1..] == a[1..] + b;
      DeleteAppend(a[1..], b, c);
    }
  }

  // ---------------------------------------------------------------------------
  // String#strip
  // ---------------------------------------------------------------------------

  /** The longest suffix of `s` that does not start with a space. */
  function StripLeft(s: string): (r: string)
    ensures |r| <= |s| && r == s[|s| - |r|..]
    ensures forall i :: 0 <= i < |s| - |r| ==> IsSpace(s[i])
    ensures r == [] || !IsSpace(r[0])
  {
    if s != [] && IsSpace(s[0]) then StripLeft(s[1..]) else s
  }

  /** The longest prefix of `s` that does not end with NUL. */
  function StripNuls(s: string): (r: string)
    ensures |r| <= |s| && r == s[..|r|]
    ensures forall i :: |r| <= i < |s| ==> s[i] == '\0'
    ensures r == [] || r[|r| - 1] != '\0'
  {
    if s != [] && s[|s| - 1] == '\0' then StripNuls(s[..|s| - 1]) else s
  }

  /** The longest prefix of `s` that does not end with a space. */
  function StripSpacesRight(s: string): (r: string)
    ensures |r| <= |s| && r == s[..|r|]
    ensures forall i :: |r| <= i < |s| ==> IsSpace(s[i])
    ensures r == [] || !IsSpace(r[|r| - 1])
  {
    if s != [] && IsSpace(s[|s| - 1]) then StripSpacesRight(s[..|s| - 1]) else s
  }

  /** A string `strip` leaves alone. */
  predicate IsStripped(s: string) {
    s == [] || (!IsSpace(s[0]) && !IsTrailingBlank(s[|s| - 1]))
  }

  /** A string that neither starts nor ends with a space. */
  predicate HasNoOuterSpace(s: string) {
    s == [] || (!IsSpace(s[0]) && !IsSpace(s[|s| - 1]))
  }

  /** `r` is the part of `s` from `k` on, with only spaces before it, then
      only spaces up to `m`, then only NULs. */
  predicate TrimmedAt(s: string, k: nat, m: nat, r: string) {
    k + |r| <= m <= |s| && r == s[k..k + |r|]
    && (forall i :: 0 <= i < k ==> IsSpace(s[i]))
    && (forall i :: k + |r| <= i < m ==> IsSpace(s[i]))
    && (forall i :: m <= i < |s| ==> s[i] == '\0')
  }

  /** `strip`: leading spaces removed, then trailing NULs, then trailing
      spaces, the two-pass `rstrip` of Ruby 1.8, so a NUL in front of
      trailing spaces stays. The NULs removed are all the trailing ones. */
  function Strip(s: string): (r: string)
    ensures HasNoOuterSpace(r)
    ensures |r| <= |s|
    ensures exists k: nat, m: nat :: TrimmedAt(s, k, m, r) && (m == k || s[m - 1] != '\0')
  {
    var l := StripLeft(s);
    var n := StripNuls(l);
    var r := StripSpacesRight(n);
    TrimmedOfParts(s, |s| - |l|, l, n, r);
    r
  }

  /** A suffix after spaces, cut before trailing NULs and then before
      trailing spaces, is the trimmed middle. */
  lemma TrimmedOfParts(s: string, k: nat, l: string, n: string, r: string)
    requires k + |l| == |s| && l == s[k..]
    requires forall i :: 0 <= i < k ==> IsSpace(s[i])
    requires |n| <= |l| && n == l[..|n|]
    requires forall i :: |n| <= i < |l| ==> l[i] == '\0'
    requires n == [] || n[|n| - 1] != '\0'
    requires |r| <= |n| && r == n[..|r|]
    requires forall i :: |r| <= i < |n| ==> IsSpace(n[i])
    ensures TrimmedAt(s, k, k + |n|, r) && (|n| == 0 || s[k + |n| - 1] != '\0')
  {
    assert forall j :: 0 <= j < |l| ==> l[j] == s[k + j];
    assert forall j :: 0 <= j < |n| ==> n[j] == l[j];
    assert r == s[k..k + |r|];
    forall i | k + |r| <= i < k + |n|
      ensures IsSpace(s[i])
    {
      assert s[i] == n[i - k];
    }
    forall i | k + |n| <= i < |s|
      ensures s[i] == '\0'
    {
      assert s[i] == l[i - k];
    }
  }

  /** `strip` brings in no character that was not there. */
  lemma StripKeepsAbsent(s: string, c: char)
    requires c !in s
    ensures c !in Strip(s)
  {
    TrimmedKeepsAbsent(s, Strip(s), c);
  }

  lemma TrimmedKeepsAbsent(s: string, r: string, c: char)
    requires exists k: nat, m: nat :: TrimmedAt(s, k, m, r) && (m == k || s[m - 1] != '\0')
    requires c !in s
    ensures c !in r
  {
    var k: nat, m: nat :| TrimmedAt(s, k, m, r) && (m == k || s[m - 1] != '\0');
    SliceKeepsAbsent(s, k, r, c);
  }

  /** A slice holds no character its sequence does not hold. */
  lemma SliceKeepsAbsent(s: string, k: nat, r: string, c: char)
    requires k + |r| <= |s| && r == s[k..k + |r|] && c !in s
    ensures c !in r
  {
    forall j | 0 <= j < |r|
      ensures r[j] != c
    {
      assert r[j] == s[k + j];
    }
  }

  /** On a NUL-free string, `strip` leaves no blank at either end. */
  lemma StripNulFree(s: string)
    ensures '\0' !in s ==> IsStripped(Strip(s))
  {
    if '\0' !in s {
      StripKeepsAbsent(s, '\0');
    }
  }

  /** Ruby 1.8 keeps a NUL that sits in front of trailing spaces: after any
      name that neither starts nor ends with a space, `strip` of name, NUL,
      space gives name, NUL. */
  lemma StripKeepsNulBeforeSpace(name: string)
    requires name != [] && HasNoOuterSpace(name)
    ensures Strip(name + "\0 ") == name + "\0"
  {
    var s := name + "\0 ";
    var kept := name + "\0";
    assert s[0] == name[0];
    assert StripLeft(s) == s;
    assert s[|s| - 1] == ' ';
    assert StripNuls(s) == s;
    assert s[..|s| - 1] == kept;
    assert kept[|kept| - 1] == '\0';
    assert StripSpacesRight(kept) == kept;
  }

  /** Leading spaces in front of a stripped string are all `strip` removes. */
  lemma {:induction false} StripAfterSpaces(pad: string, s: string)
    requires forall i :: 0 <= i < |pad| ==> IsSpace(pad[i])
    requires s != [] && IsStripped(s)
    ensures Strip(pad + s) == s
  {
    if pad == [] {
      assert pad + s == s;
    } else {
      assert (pad + s)[1..] == pad[1..] + s;
      StripAfterSpaces(pad[1..], s);
    }
  }

  // ---------------------------------------------------------------------------
  // String#chomp
  // ---------------------------------------------------------------------------

  /** One trailing line ending ("\r\n", "\n" or "\r") removed, if present. */
  function Chomp(s: string): (r: string)
    ensures |r| <= |s| && r == s[..|r|]
    ensures s[|r|..] in {"", "\n", "\r", "\r\n"}
    ensures s[|r|..] == "" <==> (s == [] || (s[|s| - 1] != '\n' && s[|s| - 1] != '\r'))
    ensures s[|r|..] == "\n" ==> r == [] || r[|r| - 1] != '\r'
  {
    if |s| >= 2 && s[|s| - 2] == '\r' && s[|s| - 1] == '\n' then
      assert s[|s| - 2..] == "\r\n";
      s[..|s| - 2]
    else if s != [] && (s[|s| - 1] == '\n' || s[|s| - 1] == '\r') then
      assert s[|s| - 1..] == [s[|s| - 1]];
      s[..|s| - 1]
    else
      assert s[|s|..] == "";
      s
  }

  /** `chomp` brings in no character that was not there. */
  lemma ChompKeepsAbsent(s: string, c: char)
    ensures c !in s ==> c !in Chomp(s)
  {
    var r := Chomp(s);
    forall j | 0 <= j < |r|
      ensures r[j] == s[j]
    {
      assert r == s[..|r|];
    }
  }

  // ---------------------------------------------------------------------------
  // String#split("\n")
  // ---------------------------------------------------------------------------

  /** The pieces joined back together with `sep` between neighbours. */
  function Join(parts: seq<string>, sep: char): string
  {
    if parts == [] then []
    else if |parts| == 1 then parts[0]
    else parts[0] + [sep] + Join(parts[1..], sep)
  }

  /** Every maximal `sep`-free field of `s`, empty ones included. */
  function Fields(s: string, sep: char): (r: seq<string>)
    ensures |r| >= 1
    ensures forall i :: 0 <= i < |r| ==> sep !in r[i]
    ensures Join(r, sep) == s
    decreases |s|
  {
    if s == [] then [""]
    else
      var rest := Fields(s[1..], sep);
      if s[0] == sep then
        assert [""] + rest == [""] + [rest[0]] + rest[1..];
        [""] + rest
      else
        var r := [[s[0]] + rest[0]] + rest[1..];
        assert r[1..] == rest[1..];
        r
  }

  /** A field free of `sep`, then `sep`, splits off as the first field. */
  lemma {:induction false} FieldsCons(a: string, b: string, sep: char)
    requires sep !in a
    ensures Fields(a + [sep] + b, sep) == [a] + Fields(b, sep)
  {
    if a == [] {
      assert a + [sep] + b == [sep] + b;
      assert ([sep] + b)[1..] == b;
    } else {
      assert (a + [sep] + b)[1..] == a[1..] + [sep] + b;
      FieldsCons(a[1..], b, sep);
      assert [a[0]] + a[1..] == a;
    }
  }

  /** Splitting undoes joining whenever no piece contains the separator. */
  lemma {:induction false} FieldsJoin(parts: seq<string>, sep: char)
    requires |parts| >= 1
    requires forall i :: 0 <= i < |parts| ==> sep !in parts[i]
    ensures Fields(Join(parts, sep), sep) == parts
  {
    if |parts| == 1 {
      FieldsOfFree(parts[0], sep);
    } else {
      FieldsJoin(parts[1..], sep);
      FieldsCons(parts[0], Join(parts[1..], sep), sep);
      assert [parts[0]] + parts[1..] == parts;
    }
  }

  /** A string without the separator is a single field. */
  lemma {:induction false} FieldsOfFree(s: string, sep: char)
    requires sep !in s
    ensures Fields(s, sep) == [s]
  {
    if s != [] {
      FieldsOfFree(s[1..], sep);
      assert [s[0]] + s[1..] == s;
    }
  }

  /** No field holds a character the string does not hold. */
  lemma {:induction false} FieldsKeepAbsent(s: string, sep: char, c: char)
    requires c !in s
    ensures forall i :: 0 <= i < |Fields(s, sep)| ==> c !in Fields(s, sep)[i]
    decreases |s|
  {
    if s != [] {
      assert s[0] in s;
      assert forall x :: x in s[1..] ==> x in s;
      FieldsKeepAbsent(s[1..], sep, c);
      var rest := Fields(s[1..], sep);
      if s[0] != sep {
        assert c !in [s[0]] + rest[0];
      }
    }
  }

  /** No line of `split("\n")` holds a character the string does not hold. */
  lemma SplitLinesKeepAbsent(s: string, c: char)
    ensures c !in s ==> forall i :: 0 <= i < |SplitLines(s)| ==> c !in SplitLines(s)[i]
  {
    if c !in s {
      FieldsKeepAbsent(s, '\n', c);
    }
  }

  /** The sequence with its trailing empty strings removed. */
  function DropTrailingEmpty(xs: seq<string>): (r: seq<string>)
    ensures |r| <= |xs| && r == xs[..|r|]
    ensures forall i :: |r| <= i < |xs| ==> xs[i] == ""
    ensures r == [] || r[|r| - 1] != ""
  {
    if xs != [] && xs[|xs| - 1] == "" then DropTrailingEmpty(xs[..|xs| - 1]) else xs
  }

  /** `split("\n")`: the newline-separated fields, minus trailing empty ones. */
  function SplitLines(s: string): (r: seq<string>)
    ensures forall i :: 0 <= i < |r| ==> '\n' !in r[i]
    ensures r == [] || r[|r| - 1] != ""
    ensures |r| <= |Fields(s, '\n')| && r == Fields(s, '\n')[..|r|]
    ensures forall i :: |r| <= i < |Fields(s, '\n')| ==> Fields(s, '\n')[i] == ""
  {
    DropTrailingEmpty(Fields(s, '\n'))
  }

  /** Lines, each followed by a newline, split back into exactly those lines. */
  lemma SplitTerminatedLines(lines: seq<string>)
    requires forall i :: 0 <= i < |lines| ==> lines[i] != [] && '\n' !in lines[i]
    ensures SplitLines(Join(lines + [""], '\n')) == lines
  {
    var parts := lines + [""];
    assert forall i :: 0 <= i < |parts| ==> '\n' !in parts[i] by {
      forall i | 0 <= i < |parts| ensures '\n' !in parts[i] {
        if i < |lines| { assert parts[i] == lines[i]; }
      }
    }
    FieldsJoin(parts, '\n');
    assert parts[..|parts| - 1] == lines;
    DropLastEmpty(lines);
  }

  /** One trailing empty string after a non-empty last line is all that goes. */
  lemma DropLastEmpty(lines: seq<string>)
    requires lines == [] || lines[|lines| - 1] != ""
    ensures DropTrailingEmpty(lines + [""]) == lines
  {
    var xs := lines + [""];
    assert xs[..|xs| - 1] == lines;
  }

  // ---------------------------------------------------------------------------
  // File.basename
  // ---------------------------------------------------------------------------

  /** The longest prefix of `s` that does not end with a slash. */
  function TrimTrailingSlashes(s: string): (r: string)
    ensures |r| <= |s| && r == s[..|r|]
    ensures forall i :: |r| <= i < |s| ==> s[i] == '/'
    ensures r == [] || r[|r| - 1] != '/'
  {
    if s != [] && s[|s| - 1] == '/' then TrimTrailingSlashes(s[..|s| - 1]) else s
  }

  /** The longest suffix of `s` that contains no slash. */
  function AfterLastSlash(s: string): (r: string)
    ensures |r| <= |s| && r == s[|s| - |r|..]
    ensures '/' !in r
    ensures |r| == |s| || s[|s| - |r| - 1] == '/'
  {
    if s == [] || s[|s| - 1] == '/' then []
    else
      var r := AfterLastSlash(s[..|s| - 1]) + [s[|s| - 1]];
      assert s[..|s| - 1][|s| - |r|..] + [s[|s| - 1]] == s[|s| - |r|..];
      r
  }

  /** `r` is the segment of `path` starting at `k`: at the front or after a
      slash, and followed by nothing but slashes. */
  predicate SegmentAt(path: string, k: nat, r: string) {
    k + |r| <= |path| && r == path[k..k + |r|]
    && (k == 0 || path[k - 1] == '/')
    && forall i :: k + |r| <= i < |path| ==> path[i] == '/'
  }

  lemma LastSegment(path: string, t: string, r: string)
    requires t == TrimTrailingSlashes(path) && r == AfterLastSlash(t)
    ensures SegmentAt(path, |t| - |r|, r)
  {
    var k := |t| - |r|;
    assert r == path[k..k + |r|];
    if k > 0 {
      assert path[k - 1] == t[k - 1];
    }
  }

  /** `File.basename(path)`: the last slash-separated component, trailing
      slashes ignored; "/" for a path made of slashes only. */
  function Basename(path: string): (r: string)
    ensures r == [] <==> path == []
    ensures r == "/" || '/' !in r
    ensures r != "/" ==> exists k :: SegmentAt(path, k, r)
    ensures r == "/" ==> forall i :: 0 <= i < |path| ==> path[i] == '/'
  {
    var t := TrimTrailingSlashes(path);
    if t != [] then
      var r := AfterLastSlash(t);
      LastSegment(path, t, r);
      r
    else if path == [] then
      assert SegmentAt(path, 0, []);
      []
    else "/"
  }

  /** The component after the last slash is the basename. */
  lemma BasenameOfSegment(dir: string, name: string)
    requires name != [] && '/' !in name
    ensures Basename(dir + "/" + name) == name
  {
    var p := dir + "/" + name;
    assert p[|p| - |name|..] == name;
    assert p[|p| - 1] == name[|name| - 1];
    assert TrimTrailingSlashes(p) == p;
    AfterSlash(p, name);
  }

  /** A slash-free suffix right after a slash is what follows the last slash. */
  lemma AfterSlash(p: string, name: string)
    requires |name| < |p| && p[|p| - |name|..] == name
    requires p[|p| - |name| - 1] == '/' && '/' !in name
    ensures AfterLastSlash(p) == name
  {
    var r := AfterLastSlash(p);
    assert forall i :: |p| - |r| <= i < |p| ==> p[i] == r[i - (|p| - |r|)] && p[i] != '/';
    assert forall i :: |p| - |name| <= i < |p| ==> p[i] == name[i - (|p| - |name|)] && p[i] != '/';
    assert forall k :: 0 <= k < |r| ==> r[k] == p[|p| - |r| + k];
  }

}
