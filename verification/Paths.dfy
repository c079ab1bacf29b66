/** Path text: splitting at slashes, folding "." and "..", and joining again. */
module Paths {

  /** The contents of a C string. */
  type CString = s: string | forall i :: 0 <= i < |s| ==> s[i] != '\0'

  // ----- components

  /** What is left of a component when the next slash or the end is reached. */
  function Emit(cur: string): seq<string>
  {
    if cur == [] then [] else [cur]
  }

  /** The components still to come, cur being the one under way. */
  function Components(s: string, cur: string): seq<string>
  {
    if s == [] then Emit(cur)
    else if s[0] == '/' then Emit(cur) + Components(s[1..], [])
    else Components(s[1..], cur + [s[0]])
  }

  /** A path component: neither empty nor with a slash. */
  predicate Proper(c: string)
  {
    c != [] && '/' !in c
  }

  /** A component that names an entry. */
  predicate Named(c: string)
  {
    Proper(c) && c != "." && c != ".."
  }

  predicate AllNamed(cs: seq<string>)
  {
    forall i :: 0 <= i < |cs| ==> Named(cs[i])
  }

  lemma {:induction false} ComponentsProper(s: string, cur: string)
    requires '/' !in cur
    ensures forall i :: 0 <= i < |Components(s, cur)| ==> Proper(Components(s, cur)[i])
    decreases |s|
  {
    if s != [] {
      ComponentsProper(s[1..], if s[0] == '/' then [] else cur + [s[0]]);
    }
  }

  /** A component runs to the next slash. */
  lemma {:induction false} ComponentRuns(c: string, s: string, cur: string)
    requires '/' !in c
    ensures Components(c + s, cur) == Components(s, cur + c)
    decreases |c|
  {
    if c == [] {
      assert c + s == s && cur + c == cur;
    } else {
      assert (c + s)[1..] == c[1..] + s && (c + s)[0] == c[0] != '/';
      assert cur + [c[0]] + c[1..] == cur + c;
      ComponentRuns(c[1..], s, cur + [c[0]]);
    }
  }

  /** A path ending in a slash and a name. */
  lemma {:induction false} ComponentsLast(s: string, cur: string, c: string)
    requires Proper(c)
    ensures Components(s + ("/" + c), cur) == Components(s, cur) + [c]
    decreases |s|
  {
    var e := "/" + c;
    if s == [] {
      assert s + e == e && e[1..] == c && c + [] == c && [] + c == c;
      ComponentRuns(c, [], []);
    } else {
      assert (s + e)[1..] == s[1..] + e && (s + e)[0] == s[0];
      ComponentsLast(s[1..], if s[0] == '/' then [] else cur + [s[0]], c);
    }
  }

  lemma {:induction false} SlashesSkip(s: string, r: nat, r': nat)
    requires r <= r' <= |s| && forall i :: r <= i < r' ==> s[i] == '/'
    ensures Components(s[r..], []) == Components(s[r'..], [])
    decreases r' - r
  {
    if r < r' {
      assert s[r..][1..] == s[r + 1..];
      SlashesSkip(s, r + 1, r');
    }
  }

  /** A slash parts the components before it from those after it. */
  lemma {:induction false} ComponentsSlash(s: string, cur: string, rest: string)
    ensures Components(s + ("/" + rest), cur) == Components(s, cur) + Components(rest, [])
    decreases |s|
  {
    var e := "/" + rest;
    if s == [] {
      assert s + e == e && e[1..] == rest;
    } else {
      assert (s + e)[1..] == s[1..] + e && (s + e)[0] == s[0];
      ComponentsSlash(s[1..], if s[0] == '/' then [] else cur + [s[0]], rest);
    }
  }

  // ----- the stack

  /** One component applied to the names on the stack. */
  function Push(stack: seq<string>, c: string): seq<string>
  {
    if c == [] || c == "." then stack
    else if c == ".." then (if stack == [] then [] else stack[..|stack| - 1])
    else stack + [c]
  }

  function Fold(stack: seq<string>, cs: seq<string>): seq<string>
    decreases |cs|
  {
    if cs == [] then stack else Fold(Push(stack, cs[0]), cs[1..])
  }

  lemma {:induction false} FoldNamed(stack: seq<string>, cs: seq<string>)
    requires AllNamed(stack) && forall i :: 0 <= i < |cs| ==> Proper(cs[i])
    ensures AllNamed(Fold(stack, cs))
    decreases |cs|
  {
    if cs != [] {
      FoldNamed(Push(stack, cs[0]), cs[1..]);
    }
  }

  lemma {:induction false} FoldOfNamed(stack: seq<string>, cs: seq<string>)
    requires AllNamed(cs)
    ensures Fold(stack, cs) == stack + cs
    decreases |cs|
  {
    if cs != [] {
      FoldOfNamed(stack + [cs[0]], cs[1..]);
      assert stack + [cs[0]] + cs[1..] == stack + cs;
    }
  }

  // ----- the text of a stack

  /** Each name followed by a slash, after the root slash. */
  function Text(stack: seq<string>): (t: string)
    ensures |t| >= 1 && t[0] == '/' && t[|t| - 1] == '/'
  {
    if stack == [] then "/"
    else Text(stack[..|stack| - 1]) + stack[|stack| - 1] + "/"
  }

  /** The same without the closing slash, except at the root. */
  function Join(stack: seq<string>): (t: string)
    ensures |t| >= 1 && t[0] == '/'
    ensures stack == [] ==> t == "/"
  {
    if stack == [] then "/" else Text(stack[..|stack| - 1]) + stack[|stack| - 1]
  }

  lemma {:induction false} ComponentsOfText(stack: seq<string>, s: string)
    requires forall i :: 0 <= i < |stack| ==> Proper(stack[i])
    ensures Components(Text(stack) + s, []) == stack + Components(s, [])
    decreases |stack|
  {
    if stack == [] {
      assert ("/" + s)[1..] == s;
      assert stack + Components(s, []) == Components(s, []);
    } else {
      var front, last := stack[..|stack| - 1], stack[|stack| - 1];
      assert Text(stack) + s == Text(front) + (last + ("/" + s));
      ComponentsOfText(front, last + ("/" + s));
      ComponentRuns(last, "/" + s, []);
      assert ("/" + s)[1..] == s;
      assert [] + last == last;
      assert stack + Components(s, []) == front + ([last] + Components(s, []));
    }
  }

  /** Joining is the inverse of splitting. */
  lemma ComponentsOfJoin(stack: seq<string>)
    requires forall i :: 0 <= i < |stack| ==> Proper(stack[i])
    ensures Components(Join(stack), []) == stack
  {
    if stack == [] {
      assert Join(stack)[1..] == [];
    } else {
      var front, last := stack[..|stack| - 1], stack[|stack| - 1];
      ComponentsOfText(front, last);
      assert last + [] == last && [] + last == last;
      ComponentRuns(last, [], []);
      assert front + [last] == stack;
    }
  }

  // ----- the normal form

  const COMPONENT_MAX: nat := 63

  /** A component as far as its buffer holds it. */
  function Cut(c: string): string
  {
    if |c| <= COMPONENT_MAX then c else c[..COMPONENT_MAX]
  }

  function CutAll(cs: seq<string>): (r: seq<string>)
    ensures |r| == |cs| && forall i :: 0 <= i < |cs| ==> r[i] == Cut(cs[i])
  {
    seq(|cs|, i requires 0 <= i < |cs| => Cut(cs[i]))
  }

  /** The names a path leads through once "." and ".." are gone. */
  function Names(path: string): seq<string>
  {
    Fold([], CutAll(Components(path, [])))
  }

  /** The names reached from a directory by a relative path. */
  function NamesFrom(dir: string, input: string): seq<string>
  {
    Fold(Names(dir), CutAll(Components(input, [])))
  }

  lemma {:induction false} FoldJoin(stack: seq<string>, a: seq<string>, b: seq<string>)
    ensures Fold(stack, a + b) == Fold(Fold(stack, a), b)
    decreases |a|
  {
    if a == [] {
      assert a + b == b;
    } else {
      assert (a + b)[1..] == a[1..] + b;
      FoldJoin(Push(stack, a[0]), a[1..], b);
    }
  }

  /** A directory, a slash and a relative path lead through those names. */
  lemma NamesOfBoth(dir: string, input: string)
    ensures Names(dir + ("/" + input)) == NamesFrom(dir, input) == NamesFrom(dir + "/", input)
  {
    var a, b := Components(dir, []), Components(input, []);
    ComponentsSlash(dir, [], input);
    assert CutAll(a + b) == CutAll(a) + CutAll(b);
    FoldJoin([], CutAll(a), CutAll(b));
    ComponentsSlash(dir, [], []);
    assert dir + ("/" + []) == dir + "/" && Components(dir + "/", []) == a + [] == a;
  }

  /** The lexical normal form of a path. */
  function Normal(path: string): string
  {
    Join(Names(path))
  }

  lemma NamesAreNamed(path: string)
    ensures AllNamed(Names(path)) && forall i :: 0 <= i < |Names(path)| ==> |Names(path)[i]| <= COMPONENT_MAX
  {
    var cs := Components(path, []);
    ComponentsProper(path, []);
    forall i | 0 <= i < |cs| ensures Proper(CutAll(cs)[i]) {
      assert Proper(cs[i]);
      assert forall k :: 0 <= k < |Cut(cs[i])| ==> Cut(cs[i])[k] == cs[i][k];
    }
    FoldNamed([], CutAll(cs));
    FoldShort([], CutAll(cs));
  }

  lemma {:induction false} FoldShort(stack: seq<string>, cs: seq<string>)
    requires forall i :: 0 <= i < |stack| ==> |stack[i]| <= COMPONENT_MAX
    requires forall i :: 0 <= i < |cs| ==> |cs[i]| <= COMPONENT_MAX
    ensures forall i :: 0 <= i < |Fold(stack, cs)| ==> |Fold(stack, cs)[i]| <= COMPONENT_MAX
    decreases |cs|
  {
    if cs != [] {
      FoldShort(Push(stack, cs[0]), cs[1..]);
    }
  }

  /** A leading slash, and every component a name: nothing empty, no ".", no "..", no trailing slash. */
  ghost predicate IsNormal(t: string)
  {
    exists stack :: AllNamed(stack) && t == Join(stack)
  }

  lemma NormalIsNormal(path: string)
    ensures IsNormal(Normal(path)) && Components(Normal(path), []) == Names(path)
    ensures |Normal(path)| > 1 ==> Normal(path)[|Normal(path)| - 1] != '/'
  {
    NamesAreNamed(path);
    ComponentsOfJoin(Names(path));
    var stack := Names(path);
    if stack != [] {
      var last := stack[|stack| - 1];
      assert Named(last);
      assert Join(stack)[|Join(stack)| - 1] == last[|last| - 1];
      assert last[|last| - 1] in last;
    }
  }

  /** The normal form has no character but those of the path and slashes. */
  lemma NormalLacks(path: string, x: char)
    requires x != '/' && x !in path
    ensures x !in Normal(path)
  {
    var cs := Components(path, []);
    ComponentsLack(path, [], x);
    FoldLacks([], CutAll(cs), x);
    var stack := Names(path);
    if stack != [] { TextLacks(stack[..|stack| - 1], x); }
  }

  ghost predicate AllLack(cs: seq<string>, x: char)
  {
    forall i :: 0 <= i < |cs| ==> x !in cs[i]
  }

  lemma {:induction false} ComponentsLack(s: string, cur: string, x: char)
    requires x !in s && x !in cur
    ensures AllLack(Components(s, cur), x)
    decreases |s|
  {
    if s != [] { ComponentsLack(s[1..], if s[0] == '/' then [] else cur + [s[0]], x); }
  }

  lemma {:induction false} FoldLacks(stack: seq<string>, cs: seq<string>, x: char)
    requires AllLack(stack, x) && AllLack(cs, x)
    ensures AllLack(Fold(stack, cs), x)
    decreases |cs|
  {
    if cs != [] { FoldLacks(Push(stack, cs[0]), cs[1..], x); }
  }

  lemma {:induction false} TextLacks(stack: seq<string>, x: char)
    requires x != '/' && AllLack(stack, x)
    ensures x !in Text(stack)
    decreases |stack|
  {
    if stack != [] { TextLacks(stack[..|stack| - 1], x); }
  }

  /** Normalising twice is normalising once. */
  lemma NormalIdempotent(path: string)
    ensures Normal(Normal(path)) == Normal(path)
  {
    var names := Names(path);
    NormalIsNormal(path);
    NamesAreNamed(path);
    assert CutAll(names) == names;
    FoldOfNamed([], names);
    assert [] + names == names;
  }

  lemma FoldOne(stack: seq<string>, c: string, rest: seq<string>)
    ensures Fold(stack, CutAll([c] + rest)) == Fold(Push(stack, Cut(c)), CutAll(rest))
  {
    assert CutAll([c] + rest)[1..] == CutAll(rest);
  }

  lemma FoldEmit(stack: seq<string>, cur: string, rest: seq<string>)
    ensures Fold(stack, CutAll(Emit(cur) + rest)) == Fold(Push(stack, Cut(cur)), CutAll(rest))
  {
    if cur == [] {
      assert Emit(cur) + rest == rest;
    } else {
      FoldOne(stack, cur, rest);
    }
  }

  /** The names still to be folded in take no more room than their text. */
  lemma {:induction false} FoldFits(stack: seq<string>, s: string, cur: string)
    ensures |Join(Fold(stack, CutAll(Components(s, cur))))| <= |Text(stack)| + |cur| + |s|
    decreases |s|
  {
    hide Text, Join, Push, Fold, Emit, CutAll;
    if s == [] {
      FoldEmit(stack, cur, []);
      assert Emit(cur) + [] == Emit(cur);
      FoldNothing(Push(stack, Cut(cur)));
      PushFits(stack, Cut(cur));
    } else if s[0] == '/' {
      FoldEmit(stack, cur, Components(s[1..], []));
      PushFits(stack, Cut(cur));
      FoldFits(Push(stack, Cut(cur)), s[1..], []);
    } else {
      FoldFits(stack, s[1..], cur + [s[0]]);
    }
  }

  lemma FoldNothing(stack: seq<string>)
    ensures Fold(stack, CutAll([])) == stack
  {
  }

  lemma PushFits(stack: seq<string>, c: string)
    ensures |Text(Push(stack, c))| <= |Text(stack)| + |c| + 1
    ensures |Join(Push(stack, c))| <= |Text(stack)| + |c|
  {
    if c != [] && c != "." && c != ".." {
      assert (stack + [c])[..|stack|] == stack;
    }
  }

  /** The normal form is never longer than an absolute path. */
  lemma NormalFits(path: string)
    requires path != [] && path[0] == '/'
    ensures |Normal(path)| <= |path|
  {
    assert Components(path, []) == Components(path[1..], []);
    FoldFits([], path[1..], []);
  }

  // ----- a path with another first component

  /** The text before the first slash. */
  function Head(s: string): (c: string)
    ensures |c| <= |s| && c == s[..|c|] && '/' !in c && (|c| < |s| ==> s[|c|] == '/')
  {
    if s == [] || s[0] == '/' then [] else [s[0]] + Head(s[1..])
  }

  lemma HeadFirst(c: string, rest: string)
    requires '/' !in c && (rest != [] ==> rest[0] == '/')
    ensures Components(c + rest, []) == Emit(c) + Components(rest, [])
  {
    ComponentRuns(c, rest, []);
    assert [] + c == c;
    if rest != [] {
      assert Emit([]) + Components(rest[1..], []) == Components(rest[1..], []);
    }
  }

  /** A name with d names above it is popped by the components. */
  predicate Unwinds(cs: seq<string>, d: nat)
    decreases |cs|
  {
    if cs == [] then false
    else if cs[0] == [] || cs[0] == "." then Unwinds(cs[1..], d)
    else if cs[0] == ".." then d == 0 || Unwinds(cs[1..], d - 1)
    else Unwinds(cs[1..], d + 1)
  }

  /** What lies at the bottom of the stack stays there unless it is popped, and then leaves no trace. */
  lemma {:induction false} FoldAbove(x: string, up: seq<string>, cs: seq<string>)
    ensures Fold([x] + up, cs) == if Unwinds(cs, |up|) then Fold(up, cs) else [x] + Fold(up, cs)
    decreases |cs|
  {
    if cs != [] {
      var c := cs[0];
      if c == ".." && up == [] {
        assert ([x] + up)[..|[x] + up| - 1] == [];
      } else {
        assert Push([x] + up, c) == [x] + Push(up, c);
        FoldAbove(x, Push(up, c), cs[1..]);
      }
    }
  }

  /** Two first components give the same names exactly when they push the same, or the rest pops what they push. */
  lemma SameNames(c: string, c': string, rest: seq<string>)
    ensures Fold(Push([], c), rest) == Fold(Push([], c'), rest)
            <==> Push([], c) == Push([], c') || Unwinds(rest, 0)
  {
    BottomName(c, rest);
    BottomName(c', rest);
    var a, b, f := Push([], c), Push([], c'), Fold([], rest);
    assert (a + f)[..|a|] == a && (b + f)[..|b|] == b;
    assert |a + f| == |b + f| ==> |a| == |b|;
  }

  lemma BottomName(c: string, rest: seq<string>)
    ensures Fold(Push([], c), rest) == if Unwinds(rest, 0) then Fold([], rest) else Push([], c) + Fold([], rest)
  {
    if Push([], c) == [] {
      assert [] + Fold([], rest) == Fold([], rest);
    } else {
      assert Push([], c) == [c] && [c] + [] == [c];
      FoldAbove(c, [], rest);
    }
  }

  lemma JoinInjective(a: seq<string>, b: seq<string>)
    requires AllNamed(a) && AllNamed(b) && Join(a) == Join(b)
    ensures a == b
  {
    ComponentsOfJoin(a);
    ComponentsOfJoin(b);
  }

  /** Normal forms agree exactly when the names do. */
  lemma SameNormal(p: string, q: string)
    ensures Normal(p) == Normal(q) <==> Names(p) == Names(q)
  {
    NamesAreNamed(p);
    NamesAreNamed(q);
    if Normal(p) == Normal(q) { JoinInjective(Names(p), Names(q)); }
  }

  /** Losing the first character of the first component, the root slash taking its place. */
  lemma LostCharacter(c: string, rest: string)
    requires c != [] && '/' !in c && (rest != [] ==> rest[0] == '/')
    ensures Normal("/" + c[1..] + rest) == Normal(c + rest)
            <==> Push([], Cut(c)) == Push([], Cut(c[1..])) || Unwinds(CutAll(Components(rest, [])), 0)
  {
    var lost := "/" + c[1..] + rest;
    assert lost[1..] == c[1..] + rest;
    assert Emit([]) + Components(lost[1..], []) == Components(lost[1..], []);
    HeadFirst(c, rest);
    HeadFirst(c[1..], rest);
    FoldEmit([], c, Components(rest, []));
    FoldEmit([], c[1..], Components(rest, []));
    SameNames(Cut(c), Cut(c[1..]), CutAll(Components(rest, [])));
    SameNormal(lost, c + rest);
  }
}
