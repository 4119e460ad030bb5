/**
 * Lexical path handling as Go's path/filepath package does it on a Unix
 * system, where the separator is '/'. Paths stay strings at the boundary;
 * Clean and Rel work on the sequence of elements between separators, the
 * way the library's own loops do.
 */
module FilePath {
  import opened Wrappers

  const Separator: char := '/'

  predicate HasPrefix(s: string, prefix: string)
  {
    |prefix| <= |s| && s[..|prefix|] == prefix
  }

  predicate HasSuffix(s: string, suffix: string)
  {
    |suffix| <= |s| && s[|s| - |suffix|..] == suffix
  }

  predicate IsRooted(p: string)
  {
    |p| > 0 && p[0] == Separator
  }

  // ---------------------------------------------------------------------
  // Splitting at separators and joining back

  /** strings.Split(s, "/"): the pieces between separators, empty pieces included. */
  function Split(s: string): (parts: seq<string>)
    ensures |parts| >= 1
    ensures forall i :: 0 <= i < |parts| ==> Separator !in parts[i]
  {
    if |s| == 0 then [""]
    else
      var rest := Split(s[1..]);
      if s[0] == Separator then [""] + rest
      else [[s[0]] + rest[0]] + rest[1..]
  }

  /** strings.Join(parts, "/"). */
  function JoinParts(parts: seq<string>): string
  {
    if |parts| == 0 then ""
    else if |parts| == 1 then parts[0]
    else parts[0] + [Separator] + JoinParts(parts[1..])
  }

  lemma {:induction false} SplitWithoutSeparator(s: string)
    requires Separator !in s
    ensures Split(s) == [s]
  {
    if |s| > 0 {
      SplitWithoutSeparator(s[1..]);
      assert [s[0]] + s[1..] == s;
    }
  }

  /** Splitting distributes over a separator: the basis of Join's element arithmetic. */
  lemma {:induction false} SplitConcat(a: string, b: string)
    ensures Split(a + [Separator] + b) == Split(a) + Split(b)
  {
    var s := a + [Separator] + b;
    if |a| == 0 {
      assert s[0] == Separator && s[1..] == b;
    } else {
      assert s[1..] == a[1..] + [Separator] + b;
      SplitConcat(a[1..], b);
      SplitConcatStep(a, b);
    }
  }

  /** One step of SplitConcat: the first character of a, given the split of the rest. */
  lemma SplitConcatStep(a: string, b: string)
    requires |a| > 0
    requires Split(a[1..] + [Separator] + b) == Split(a[1..]) + Split(b)
    ensures Split(a + [Separator] + b) == Split(a) + Split(b)
  {
    var s := a + [Separator] + b;
    assert s[0] == a[0];
    assert s[1..] == a[1..] + [Separator] + b;
    if a[0] == Separator {
      SplitCons(s, Split(a[1..]), Split(b));
    } else {
      SplitConsChar(s, a, Split(a[1..]), Split(b));
    }
  }

  /** Splitting at a leading separator starts with an empty piece. */
  lemma SplitCons(s: string, ra: seq<string>, rb: seq<string>)
    requires |s| > 0 && s[0] == Separator
    requires Split(s[1..]) == ra + rb
    ensures Split(s) == ([""] + ra) + rb
  {
    assert [""] + (ra + rb) == ([""] + ra) + rb;
  }

  /** A leading ordinary character joins the first piece. */
  lemma SplitConsChar(s: string, a: string, ra: seq<string>, rb: seq<string>)
    requires |s| > 0 && |a| > 0 && s[0] == a[0] && a[0] != Separator
    requires Split(a[1..]) == ra
    requires Split(s[1..]) == ra + rb
    ensures Split(s) == Split(a) + rb
  {
    assert Split(a) == [[a[0]] + ra[0]] + ra[1..];
    assert Split(s) == [[a[0]] + (ra + rb)[0]] + (ra + rb)[1..];
    PrependToFirst(a[0], ra, rb);
  }

  /** Extending the first piece commutes with appending further pieces. */
  lemma PrependToFirst(c: char, ra: seq<string>, rb: seq<string>)
    requires |ra| > 0
    ensures [[c] + (ra + rb)[0]] + (ra + rb)[1..] == ([[c] + ra[0]] + ra[1..]) + rb
  {
    assert (ra + rb)[0] == ra[0];
    assert (ra + rb)[1..] == ra[1..] + rb;
  }

  /** Joining the pieces of a split gives the string back. */
  lemma {:induction false} JoinSplit(s: string)
    ensures JoinParts(Split(s)) == s
  {
    if |s| > 0 {
      JoinSplit(s[1..]);
      var rest := Split(s[1..]);
      assert s == [s[0]] + s[1..];
      if s[0] == Separator {
        assert Split(s) == [""] + rest;
        assert (([""] + rest)[1..]) == rest;
      } else if |rest| > 1 {
        var parts := Split(s);
        assert parts[1..] == rest[1..];
        assert JoinParts(rest) == rest[0] + [Separator] + JoinParts(rest[1..]);
      }
    }
  }

  /** Splitting a join of separator-free pieces gives the pieces back. */
  lemma {:induction false} SplitJoin(parts: seq<string>)
    requires |parts| >= 1
    requires forall i :: 0 <= i < |parts| ==> Separator !in parts[i]
    ensures Split(JoinParts(parts)) == parts
  {
    SplitWithoutSeparator(parts[0]);
    if |parts| > 1 {
      SplitJoin(parts[1..]);
      SplitConcat(parts[0], JoinParts(parts[1..]));
      assert [parts[0]] + parts[1..] == parts;
    }
  }

  /** A join begins with its first piece; what follows it, if anything, starts with a separator. */
  lemma JoinPartsFirst(parts: seq<string>)
    requires |parts| >= 1
    ensures HasPrefix(JoinParts(parts), parts[0])
    ensures |parts| > 1 ==> |JoinParts(parts)| > |parts[0]| && JoinParts(parts)[|parts[0]|] == Separator
    ensures |parts| == 1 ==> JoinParts(parts) == parts[0]
  {
    if |parts| > 1 {
      var s := JoinParts(parts);
      assert s == parts[0] + ([Separator] + JoinParts(parts[1..]));
      assert s[..|parts[0]|] == parts[0];
    }
  }

  /** A join ends with its last piece. */
  lemma {:induction false} JoinPartsLast(parts: seq<string>)
    requires |parts| >= 1
    ensures HasSuffix(JoinParts(parts), parts[|parts| - 1])
  {
    if |parts| > 1 {
      JoinPartsLast(parts[1..]);
      var rest := JoinParts(parts[1..]);
      var s := JoinParts(parts);
      assert s == (parts[0] + [Separator]) + rest;
      assert s[|s| - |rest|..] == rest;
    }
  }

  /** A join starts with ".." exactly when its first piece does. */
  lemma DotDotPrefixOfJoin(parts: seq<string>)
    requires |parts| >= 1
    ensures HasPrefix(JoinParts(parts), "..") <==> HasPrefix(parts[0], "..")
  {
    JoinPartsFirst(parts);
    var s := JoinParts(parts);
    var p0 := parts[0];
    if |p0| >= 2 {
      assert s[..2] == p0[..2];
    } else if |parts| > 1 {
      assert s[|p0|] == Separator;
      assert |s| < 2 || s[..2][|p0|] != '.';
    } else {
      assert s == p0;
    }
  }

  // ---------------------------------------------------------------------
  // filepath.Clean

  /**
   * One element of the walk filepath.Clean makes over a path: empty and "."
   * elements vanish, ".." removes the element before it when there is a real
   * one, is dropped at the root of a rooted path, and is kept otherwise.
   */
  function Step(rooted: bool, stack: seq<string>, elem: string): seq<string>
  {
    if elem == "" || elem == "." then stack
    else if elem == ".." then
      if |stack| > 0 && stack[|stack| - 1] != ".." then stack[..|stack| - 1]
      else if rooted then stack
      else stack + [".."]
    else stack + [elem]
  }

  function Walk(rooted: bool, stack: seq<string>, elems: seq<string>): seq<string>
    decreases |elems|
  {
    if |elems| == 0 then stack
    else Walk(rooted, Step(rooted, stack, elems[0]), elems[1..])
  }

  /** The elements of Clean(p). */
  function Elements(p: string): seq<string>
  {
    Walk(IsRooted(p), [], Split(p))
  }

  /** The printed form of a cleaned path. */
  function Format(rooted: bool, elems: seq<string>): string
  {
    if rooted then [Separator] + JoinParts(elems)
    else if |elems| == 0 then "."
    else JoinParts(elems)
  }

  /** filepath.Clean(p) on Unix. */
  function Clean(p: string): string
  {
    Format(IsRooted(p), Elements(p))
  }

  /**
   * What Clean can produce: no empty or "." element, no separator inside an
   * element, and ".." only at the bottom of a relative path.
   */
  predicate IsCleanStack(rooted: bool, s: seq<string>)
  {
    forall i :: 0 <= i < |s| ==>
      s[i] != "" && s[i] != "." && Separator !in s[i] &&
      (s[i] == ".." ==> !rooted && forall j :: 0 <= j < i ==> s[j] == "..")
  }

  lemma {:induction false} WalkAppend(rooted: bool, stack: seq<string>, a: seq<string>, b: seq<string>)
    ensures Walk(rooted, stack, a + b) == Walk(rooted, Walk(rooted, stack, a), b)
    decreases |a|
  {
    if |a| == 0 {
      assert a + b == b;
    } else {
      assert (a + b)[0] == a[0];
      assert (a + b)[1..] == a[1..] + b;
      WalkAppend(rooted, Step(rooted, stack, a[0]), a[1..], b);
    }
  }

  lemma StepKeepsClean(rooted: bool, stack: seq<string>, elem: string)
    requires IsCleanStack(rooted, stack)
    requires Separator !in elem
    ensures IsCleanStack(rooted, Step(rooted, stack, elem))
  {
    var n := |stack|;
    if elem == ".." && !(n > 0 && stack[n - 1] != "..") && !rooted {
      var s := stack + [".."];
      forall i | 0 <= i < |s| && s[i] == ".."
        ensures forall j :: 0 <= j < i ==> s[j] == ".."
      {
        if i == n && n > 0 {
          assert stack[n - 1] == "..";
        }
      }
    }
  }

  lemma {:induction false} WalkKeepsClean(rooted: bool, stack: seq<string>, elems: seq<string>)
    requires IsCleanStack(rooted, stack)
    requires forall i :: 0 <= i < |elems| ==> Separator !in elems[i]
    ensures IsCleanStack(rooted, Walk(rooted, stack, elems))
    decreases |elems|
  {
    if |elems| > 0 {
      StepKeepsClean(rooted, stack, elems[0]);
      WalkKeepsClean(rooted, Step(rooted, stack, elems[0]), elems[1..]);
    }
  }

  /** Walking over elements that already form a clean stack changes nothing. */
  lemma {:induction false} WalkOverCleanStack(rooted: bool, prefix: seq<string>, s: seq<string>)
    requires IsCleanStack(rooted, prefix + s)
    ensures Walk(rooted, prefix, s) == prefix + s
    decreases |s|
  {
    if |s| == 0 {
      assert prefix + s == prefix;
    } else {
      var all := prefix + s;
      assert all[|prefix|] == s[0];
      if s[0] == ".." {
        assert forall j :: 0 <= j < |prefix| ==> prefix[j] == all[j];
      }
      assert Step(rooted, prefix, s[0]) == prefix + [s[0]];
      assert prefix + [s[0]] + s[1..] == all;
      WalkOverCleanStack(rooted, prefix + [s[0]], s[1..]);
    }
  }

  lemma ElementsAreClean(p: string)
    ensures IsCleanStack(IsRooted(p), Elements(p))
  {
    WalkKeepsClean(IsRooted(p), [], Split(p));
  }

  /** Walking over the pieces of a printed clean path is walking over its elements. */
  lemma WalkOverFormat(rooted: bool, r: bool, stack: seq<string>, elems: seq<string>)
    requires IsCleanStack(r, elems)
    ensures Walk(rooted, stack, Split(Format(r, elems))) == Walk(rooted, stack, elems)
  {
    var f := Format(r, elems);
    if r {
      if |elems| == 0 {
        assert f == [Separator];
        assert f[1..] == "";
        assert Split(f) == ["", ""];
      } else {
        assert f[0] == Separator && f[1..] == JoinParts(elems);
        SplitJoin(elems);
        assert Split(f) == [""] + elems;
        assert ([""] + elems)[1..] == elems;
      }
    } else if |elems| == 0 {
      SplitWithoutSeparator(".");
    } else {
      SplitJoin(elems);
    }
  }

  /** Clean keeps rootedness and the elements, and never yields the empty string. */
  lemma CleanElements(p: string)
    ensures Clean(p) != ""
    ensures IsRooted(Clean(p)) == IsRooted(p)
    ensures Elements(Clean(p)) == Elements(p)
  {
    var r := IsRooted(p);
    var e := Elements(p);
    ElementsAreClean(p);
    var c := Clean(p);
    if !r && |e| > 0 {
      JoinPartsFirst(e);
      assert c[0] == e[0][0];
    }
    assert IsRooted(c) == r;
    WalkOverFormat(r, r, [], e);
    WalkOverCleanStack(r, [], e);
    assert [] + e == e;
  }

  /** Cleaning is idempotent. */
  lemma CleanIdempotent(p: string)
    ensures Clean(Clean(p)) == Clean(p)
  {
    CleanElements(p);
  }

  // ---------------------------------------------------------------------
  // filepath.Join with two elements

  /** filepath.Join(a, b): the first non-empty element and all after it, joined and cleaned. */
  function Join(a: string, b: string): string
  {
    if a != "" then Clean(a + [Separator] + b)
    else if b != "" then Clean(b)
    else ""
  }

  /**
   * Joining a cleaned name onto a directory walks the name's elements starting
   * from the directory's elements; the result is rooted when the directory is
   * (or, for an empty directory, when the name is). With a directory, the
   * result is the printed form of that walk.
   */
  lemma JoinCleanElements(dir: string, name: string)
    ensures Elements(Join(dir, Clean(name))) == Walk(IsRooted(dir), Elements(dir), Elements(name))
    ensures IsRooted(Join(dir, Clean(name))) == if dir != "" then IsRooted(dir) else IsRooted(name)
    ensures dir != "" ==>
              Join(dir, Clean(name)) == Format(IsRooted(dir), Walk(IsRooted(dir), Elements(dir), Elements(name)))
  {
    var c := Clean(name);
    CleanElements(name);
    ElementsAreClean(name);
    if dir != "" {
      var x := dir + [Separator] + c;
      assert x[0] == dir[0];
      CleanElements(x);
      SplitConcat(dir, c);
      WalkAppend(IsRooted(dir), [], Split(dir), Split(c));
      WalkOverFormat(IsRooted(dir), IsRooted(name), Elements(dir), Elements(name));
    } else {
      CleanElements(c);
      assert Elements("") == [];
      var e := Elements(name);
      assert IsCleanStack(false, e);
      WalkOverCleanStack(false, [], e);
      assert [] + e == e;
    }
  }

  // ---------------------------------------------------------------------
  // filepath.Rel

  datatype RelError = CannotMakeRelative(targpath: string, basepath: string)

  /** The number of leading elements two element lists share. */
  function CommonPrefixLength(a: seq<string>, b: seq<string>): (k: nat)
    ensures k <= |a| && k <= |b|
    ensures a[..k] == b[..k]
    ensures k < |a| && k < |b| ==> a[k] != b[k]
  {
    if |a| == 0 || |b| == 0 || a[0] != b[0] then 0
    else
      var k := CommonPrefixLength(a[1..], b[1..]);
      assert a[..k + 1] == [a[0]] + a[1..][..k];
      assert b[..k + 1] == [b[0]] + b[1..][..k];
      k + 1
  }

  /**
   * filepath.Rel(basepath, targpath) on Unix: both are cleaned; equal paths give
   * "."; a rooted and an unrooted path cannot be related; otherwise the shared
   * leading elements are dropped, one ".." is emitted for every element of the
   * base left over (failing when such an element is itself ".."), and the rest
   * of the target follows. Go turns only a base of "." into the empty path,
   * so a target of "." under a longer base keeps a trailing "." there
   * (Rel("a", ".") is "../." in Go and ".." here); both results start with
   * "..", and that prefix is all that callers of Rel in this model look at.
   */
  function Rel(basepath: string, targpath: string): Result<string, RelError>
  {
    var base := Clean(basepath);
    var targ := Clean(targpath);
    if targ == base then Ok(".")
    else if IsRooted(base) != IsRooted(targ) then Err(CannotMakeRelative(targpath, basepath))
    else
      var b := Elements(base);
      var t := Elements(targ);
      var k := CommonPrefixLength(b, t);
      if k < |b| && b[k] == ".." then Err(CannotMakeRelative(targpath, basepath))
      else if k < |b| then Ok(JoinParts(seq(|b| - k, _ => "..") + t[k..]))
      else Ok(JoinParts(t[k..]))
  }

  /** p lies inside dir: both rooted or both relative, and dir's elements lead p's. */
  predicate Within(dir: string, p: string)
  {
    var d := Elements(dir);
    var e := Elements(p);
    IsRooted(dir) == IsRooted(p) && |d| <= |e| && e[..|d|] == d
  }

  /** The element of p just below dir, when p lies strictly below dir, does not start with "..". */
  predicate NoDotDotChild(dir: string, p: string)
  {
    var d := Elements(dir);
    var e := Elements(p);
    |e| <= |d| || !HasPrefix(e[|d|], "..")
  }

  /**
   * Rel(dir, p) succeeds with a result that does not start with ".." exactly
   * when p lies inside dir and the first element of p below dir does not
   * itself start with "..".
   */
  lemma RelWithoutDotDot(dir: string, p: string)
    ensures (Rel(dir, p).Ok? && !HasPrefix(Rel(dir, p).value, ".."))
            <==> Within(dir, p) && NoDotDotChild(dir, p)
  {
    var base := Clean(dir);
    var targ := Clean(p);
    CleanElements(dir);
    CleanElements(p);
    var b := Elements(dir);
    var t := Elements(p);
    if targ == base {
      assert b == t;
      assert t[..|b|] == t;
    } else if IsRooted(base) != IsRooted(targ) {
    } else {
      var k := CommonPrefixLength(b, t);
      if k < |b| {
        if b[k] != ".." {
          var ups := seq(|b| - k, _ => "..");
          var parts := ups + t[k..];
          assert parts[0] == "..";
          DotDotPrefixOfJoin(parts);
        }
      } else {
        assert k == |b|;
        assert t[..|b|] == b;
        if k < |t| {
          DotDotPrefixOfJoin(t[k..]);
          assert t[k..][0] == t[|b|];
        }
      }
    }
  }
}
