/**
 * `safe_filename`: `re.sub(r'[\\/:"*?<>|]+', "_", s)`, which replaces every
 * maximal run of characters that are not allowed in file names by a single
 * underscore.
 */
module Filenames {

  /** The characters of the regular expression's class. */
  predicate IsIllegal(c: char) {
    c == '\\' || c == '/' || c == ':' || c == '"' || c == '*' || c == '?' || c == '<' || c == '>' || c == '|'
  }

  predicate NoIllegal(s: string) {
    forall i :: 0 <= i < |s| ==> !IsIllegal(s[i])
  }

  /** `s` without its leading run of illegal characters. */
  function DropIllegal(s: string): (r: string)
    ensures |r| <= |s|
    ensures r == s[|s| - |r|..]
    ensures r == [] || !IsIllegal(r[0])
    ensures forall i :: 0 <= i < |s| - |r| ==> IsIllegal(s[i])
  {
    if s != [] && IsIllegal(s[0]) then DropIllegal(s[1..]) else s
  }

  /**
   * Left to right: a legal character is copied, and an illegal one starts a
   * run that the regular expression's `+` consumes whole and replaces by `_`.
   */
  function SafeFilename(s: string): (r: string)
    ensures NoIllegal(r)
    ensures |r| <= |s|
    decreases |s|
  {
    if s == [] then []
    else if IsIllegal(s[0]) then "_" + SafeFilename(DropIllegal(s[1..]))
    else [s[0]] + SafeFilename(s[1..])
  }

  /** A name without illegal characters is left as it is. */
  lemma {:induction false} SafeFilenameOfClean(s: string)
    requires NoIllegal(s)
    ensures SafeFilename(s) == s
    decreases |s|
  {
    if s != [] {
      SafeFilenameOfClean(s[1..]);
    }
  }

  /** Cleaning twice is cleaning once. */
  lemma SafeFilenameIdempotent(s: string)
    ensures SafeFilename(SafeFilename(s)) == SafeFilename(s)
  {
    SafeFilenameOfClean(SafeFilename(s));
  }

  /** Dropping a leading run is unaffected by what follows a legal character. */
  lemma {:induction false} DropIllegalAppend(a: string, b: string)
    requires a != [] && !IsIllegal(a[|a| - 1])
    ensures DropIllegal(a + b) == DropIllegal(a) + b
    ensures DropIllegal(a) != [] && DropIllegal(a)[|DropIllegal(a)| - 1] == a[|a| - 1]
    decreases |a|
  {
    if IsIllegal(a[0]) {
      assert (a + b)[1..] == a[1..] + b;
      DropIllegalAppend(a[1..], b);
    }
  }

  /**
   * A run never spans a legal character, so a name cut just after a legal
   * character is cleaned piece by piece.
   */
  lemma {:induction false} SafeFilenameConcat(a: string, b: string)
    requires a == [] || !IsIllegal(a[|a| - 1])
    ensures SafeFilename(a + b) == SafeFilename(a) + SafeFilename(b)
    decreases |a|
  {
    if a == [] {
      assert a + b == b;
    } else if !IsIllegal(a[0]) {
      assert (a + b)[1..] == a[1..] + b;
      SafeFilenameConcat(a[1..], b);
      assert SafeFilename(a) == [a[0]] + SafeFilename(a[1..]);
      calc {
        SafeFilename(a + b);
        [a[0]] + SafeFilename(a[1..] + b);
        [a[0]] + (SafeFilename(a[1..]) + SafeFilename(b));
        { ConcatAssoc([a[0]], SafeFilename(a[1..]), SafeFilename(b)); }
        ([a[0]] + SafeFilename(a[1..])) + SafeFilename(b);
      }
    } else {
      var rest := a[1..];
      assert (a + b)[1..] == rest + b;
      DropIllegalAppend(rest, b);
      var kept := DropIllegal(rest);
      assert rest[|rest| - 1] == a[|a| - 1];
      assert kept[|kept| - 1] == a[|a| - 1];
      SafeFilenameConcat(kept, b);
      assert SafeFilename(a) == "_" + SafeFilename(kept);
      calc {
        SafeFilename(a + b);
        "_" + SafeFilename(kept + b);
        "_" + (SafeFilename(kept) + SafeFilename(b));
        { ConcatAssoc("_", SafeFilename(kept), SafeFilename(b)); }
        ("_" + SafeFilename(kept)) + SafeFilename(b);
      }
    }
  }

  lemma ConcatAssoc(x: string, y: string, z: string)
    ensures x + (y + z) == (x + y) + z
  {
  }

  /** A whole run of illegal characters, followed by the end or by a legal character, becomes one `_`. */
  lemma {:induction false} SafeFilenameRun(run: string, b: string)
    requires run != [] && forall i :: 0 <= i < |run| ==> IsIllegal(run[i])
    requires b == [] || !IsIllegal(b[0])
    ensures SafeFilename(run + b) == "_" + SafeFilename(b)
  {
    assert (run + b)[1..] == run[1..] + b;
    DropAllIllegal(run[1..], b);
  }

  lemma {:induction false} DropAllIllegal(run: string, b: string)
    requires forall i :: 0 <= i < |run| ==> IsIllegal(run[i])
    requires b == [] || !IsIllegal(b[0])
    ensures DropIllegal(run + b) == b
    decreases |run|
  {
    if run == [] {
      assert run + b == b;
    } else {
      assert (run + b)[1..] == run[1..] + b;
      DropAllIllegal(run[1..], b);
    }
  }
}
