/** ResolvePathH of fs/FsUtils.h: it builds the full path in one static buffer
    and normalises it there, writing behind its own reading. */
module PathResolver {
  import opened Paths

  const WORK_SIZE: nat := 512
  const NUL: char := '\0'

  function Clip(s: string, n: nat): (r: string)
    ensures |r| <= n && (|s| <= n ==> r == s)
  {
    if |s| <= n then s else s[..n]
  }

  /** The working directory as copied, with a separator when it lacks one. */
  function Directory(currentDir: string): (d: string)
    ensures |d| <= WORK_SIZE - 1
  {
    var c := Clip(currentDir, WORK_SIZE - 2);
    if c != [] && c[|c| - 1] != '/' then c + "/" else c
  }

  /** The path to normalise, as far as the buffer holds it. A missing working directory is "". */
  function Full(currentDir: string, input: string): (f: string)
    ensures |f| <= WORK_SIZE - 1
  {
    if input != [] && input[0] == '/' then Clip(input, WORK_SIZE - 1)
    else Directory(currentDir) + Clip(input, WORK_SIZE - 1 - |Directory(currentDir)|)
  }

  /** The text before the first NUL. */
  function Before(s: string): (t: string)
    ensures |t| <= |s| && t == s[..|t|] && NUL !in t
    ensures |t| < |s| ==> s[|t|] == NUL
  {
    if s == [] || s[0] == NUL then [] else [s[0]] + Before(s[1..])
  }

  lemma {:induction false} BeforeIs(s: string, n: nat)
    requires n < |s| && s[n] == NUL && NUL !in s[..n]
    ensures Before(s) == s[..n]
  {
    if n > 0 {
      assert s[0] in s[..n];
      assert s[1..][..n - 1] == s[..n][1..];
      BeforeIs(s[1..], n - 1);
    }
  }

  lemma {:induction false} BeforeStops(s: string, k: nat)
    requires k < |s| && s[k] == NUL
    ensures |Before(s)| <= k
  {
    if k > 0 {
      BeforeStops(s[1..], k - 1);
    }
  }

  /** What is normalised: the first byte is always overwritten by the root slash,
      so an empty path leaves the buffer's old contents to be read. */
  function Effective(work: string, currentDir: string, input: string): string
  {
    var full := Full(currentDir, input);
    if full == [] then "/" + (if work == [] then [] else Before(work[1..])) else "/" + full[1..]
  }

  /** The full path resolves to its own normal form: it is absolute, or losing its first
      character makes no difference, or it is empty and the result before it was the root. */
  predicate ResolvesAsGiven(work: string, currentDir: string, input: string)
  {
    var full := Full(currentDir, input);
    if full == [] then work != [] && Before(work[1..]) == []
    else
      var c := Head(full);
      || full[0] == '/'
      || Push([], Cut(c)) == Push([], Cut(c[1..]))
      || Unwinds(CutAll(Components(full[|c|..], [])), 0)
  }

  /** For every buffer that a call leaves; only an empty path reads it. */
  lemma OutputIsNormal(work: string, currentDir: string, input: string)
    ensures Settled(work) || Full(currentDir, input) != [] ==>
              (Normal(Effective(work, currentDir, input)) == Normal(Full(currentDir, input))
               <==> ResolvesAsGiven(work, currentDir, input))
  {
    var full := Full(currentDir, input);
    hide Full, Normal, Names, Push, Cut, Unwinds, CutAll, Components;
    if full == [] {
      if Settled(work) { EmptyRepeats(work, currentDir, input); }
    } else if full[0] == '/' {
      assert "/" + full[1..] == full;
    } else {
      var c := Head(full);
      var rest := full[|c|..];
      assert full == c + rest && "/" + full[1..] == "/" + c[1..] + rest;
      LostCharacter(c, rest);
    }
  }

  lemma EmptyNames()
    ensures Names("") == []
  {
    assert CutAll(Components("", [])) == [];
  }

  /** The buffer holds, from its second byte on, the rest of a normal path: so it starts,
      as the root, and so every call leaves it. */
  predicate Settled(work: string)
  {
    work != [] && Normal(Remembered(work)) == Remembered(work)
  }

  function Remembered(work: string): string
    requires work != []
  {
    "/" + Before(work[1..])
  }

  /** An empty path in an empty working directory resolves to the result before it, and so
      to its own normal form exactly when that was the root. */
  lemma EmptyRepeats(work: string, currentDir: string, input: string)
    requires Settled(work) && Full(currentDir, input) == []
    ensures Normal(Effective(work, currentDir, input)) == Remembered(work)
    ensures Remembered(work) == Normal("") <==> Before(work[1..]) == []
  {
    EmptyNames();
    assert Normal("") == "/";
    assert Before(work[1..]) == Remembered(work)[1..];
  }

  lemma SettledAtRoot(work: string)
    requires |work| >= 2 && work[1] == NUL
    ensures Settled(work)
  {
    assert "/"[1..] == "";
    assert CutAll(Components("/", [])) == [];
  }

  lemma NoNul(w: string, currentDir: CString, input: CString)
    ensures NUL !in Normal(Effective(w, currentDir, input))
  {
    var e := Effective(w, currentDir, input);
    FullHasNoNul(currentDir, input);
    assert NUL !in e;
    NormalLacks(e, NUL);
  }

  lemma SettledAfter(w: string, currentDir: CString, input: CString, w': string, n: nat)
    requires n < |w'| && w'[..n] == Normal(Effective(w, currentDir, input)) && w'[n] == NUL
    ensures Settled(w')
  {
    var e := Effective(w, currentDir, input);
    NoNul(w, currentDir, input);
    NormalStarts(e);
    hide Effective, Normal;
    assert w'[0] == w'[..n][0] == '/';
    assert w'[1..][..n - 1] == w'[..n][1..];
    BeforeIs(w'[1..], n - 1);
    assert Remembered(w') == w'[..n];
    NormalIdempotent(e);
  }

  /** After "/a" it resolves to "/a". */
  lemma RepeatsName(rest: string)
    ensures Settled("/a" + [NUL] + rest) && Normal(Effective("/a" + [NUL] + rest, "", "")) == "/a" != Normal("")
  {
    var work := "/a" + [NUL] + rest;
    OneName("a");
    BeforeIs(work[1..], 1);
    assert work[1..][..1] == "a";
    assert Full("", "") == "";
    EmptyRepeats(work, "", "");
  }

  /** An absolute path, the documented case, is normalised as it stands. */
  lemma AbsoluteIsKept(work: string, currentDir: string, input: string)
    requires var full := Full(currentDir, input); full != [] && full[0] == '/'
    ensures Effective(work, currentDir, input) == Full(currentDir, input)
  {
    var full := Full(currentDir, input);
    assert "/" + full[1..] == full;
  }

  /** A relative path in an absolute working directory, both fitting the buffer. */
  predicate RelativeFits(currentDir: string, input: string)
  {
    && currentDir != [] && currentDir[0] == '/' && !(input != [] && input[0] == '/')
    && |currentDir| + 1 + |input| < 512
  }

  /** It leads through the names of the directory and then its own. */
  lemma RelativeNames(work: string, currentDir: string, input: string)
    requires RelativeFits(currentDir, input)
    ensures Normal(Effective(work, currentDir, input)) == Join(NamesFrom(currentDir, input))
  {
    hide Normal, Join;
    var full := Full(currentDir, input);
    var n := |currentDir| - 1;
    if currentDir[n] == '/' {
      var d := currentDir[..n];
      assert currentDir == d + "/";
      assert full == d + ("/" + input);
      NamesOfBoth(d, input);
    } else {
      assert full == currentDir + ("/" + input);
      NamesOfBoth(currentDir, input);
    }
    AbsoluteIsKept(work, currentDir, input);
    NormalOfNames(full);
  }

  lemma NormalOfNames(path: string)
    ensures Normal(path) == Join(Names(path))
  {
  }

  /** "docs" in "/home" is "/home/docs", and ".." there is "/". */
  lemma HomeDocs()
    ensures RelativeFits("/home", "docs") && Join(NamesFrom("/home", "docs")) == "/home/docs"
    ensures RelativeFits("/home", "..") && Join(NamesFrom("/home", "..")) == "/"
  {
    hide NamesFrom, Join;
    OneBelow("home", "docs");
    OneBelow("home", "..");
    JoinTwo("home", "docs");
    RootJoin();
    assert "/" + "home" == "/home" && "/" + "home" + "/" + "docs" == "/home/docs";
  }

  lemma OneBelow(a: string, c: string)
    requires Named(a) && Proper(c) && |a| <= COMPONENT_MAX && |c| <= COMPONENT_MAX
    ensures NamesFrom("/" + a, c) == Push([a], c)
  {
    NamesOfOne(a);
    HeadFirst(c, []);
    assert c + [] == c && Emit(c) + [] == [c];
    hide Components, Names;
    FoldTwo(a, c);
  }

  lemma JoinTwo(a: string, c: string)
    ensures Join([a, c]) == "/" + a + "/" + c
  {
    assert [a, c][..1] == [a] && [a][..0] == [];
    assert Text([]) == "/" && Text([a]) == "/" + a + "/";
  }

  lemma RootJoin()
    ensures Push(["home"], "..") == [] && Join([]) == "/" && Push(["home"], "docs") == ["home", "docs"]
  {
  }

  lemma NamesOfOne(c: string)
    requires Named(c) && |c| <= COMPONENT_MAX
    ensures Names("/" + c) == [c]
  {
    HeadFirst(c, []);
    assert c + [] == c && [c] + [] == [c];
    assert ("/" + c)[1..] == c && Emit([]) + [c] == [c];
    assert CutAll([c]) == [c];
    FoldOfNamed([], [c]);
    assert [] + [c] == [c];
  }

  lemma FoldTwo(a: string, c: string)
    requires |c| <= COMPONENT_MAX
    ensures Fold([a], CutAll([c])) == Push([a], c)
  {
    assert CutAll([c]) == [c] && [c][1..] == [];
  }

  /** A relative path loses its first character: "abc" resolves to "/bc". */
  lemma RelativeLosesFirst(work: string)
    ensures Normal(Effective(work, "", "abc")) == "/bc" && Normal(Full("", "abc")) == "/abc"
  {
    hide Normal;
    assert Full("", "abc") == "abc";
    assert Effective(work, "", "abc") == "/bc";
    OneName("abc");
    OneName("bc");
  }

  lemma OneName(c: string)
    requires Named(c) && |c| <= COMPONENT_MAX
    ensures Normal(c) == "/" + c && Normal("/" + c) == "/" + c
  {
    HeadFirst(c, []);
    assert c + [] == c && [c] + [] == [c];
    assert ("/" + c)[1..] == c && Emit([]) + [c] == [c];
    assert Components("/" + c, []) == [c];
    hide Components;
    assert CutAll([c]) == [c];
    FoldOfNamed([], [c]);
    assert [] + [c] == [c];
    assert [c][..0] == [];
  }

  /** Resolving an already resolved path changes nothing, whatever the working directory. */
  lemma ResolveIdempotent(w: string, w': string, currentDir: string, currentDir': string, input: string)
    requires |w| == WORK_SIZE && NUL in w[1..]
    ensures var t := Normal(Effective(w, currentDir, input));
            |t| < WORK_SIZE && Normal(Effective(w', currentDir', t)) == t
  {
    hide Normal, Effective, Full;
    var e := Effective(w, currentDir, input);
    EffectiveShape(w, currentDir, input);
    NormalFits(e);
    NormalStarts(e);
    FullOfAbsolute(currentDir', Normal(e));
    AbsoluteIsKept(w', currentDir', Normal(e));
    NormalIdempotent(e);
  }

  lemma EffectiveShape(w: string, currentDir: string, input: string)
    requires |w| == WORK_SIZE && NUL in w[1..]
    ensures var e := Effective(w, currentDir, input); 1 <= |e| < WORK_SIZE && e[0] == '/'
  {
    var k :| 0 <= k < |w[1..]| && w[1..][k] == NUL;
    BeforeStops(w[1..], k);
  }

  lemma NormalStarts(p: string)
    ensures Normal(p) != [] && Normal(p)[0] == '/'
  {
  }

  lemma FullOfAbsolute(currentDir: string, input: string)
    requires input != [] && input[0] == '/' && |input| < WORK_SIZE
    ensures Full(currentDir, input) == input
  {
  }

  /** The text after one more component: a name keeps its closing slash only when more follows. */
  function Applied(stack: seq<string>, c: string, more: bool): string
  {
    if c != [] && c != "." && c != ".." && !more then Join(stack + [c]) else Text(Push(stack, c))
  }

  lemma FilledText(w: string, w': string, currentDir: CString, input: CString)
    requires |w| == |w'| == WORK_SIZE && exists k :: 1 <= k < WORK_SIZE && w[k] == NUL
    requires var full := Full(currentDir, input);
             && w'[..|full|] == full && w'[|full|] == NUL
             && forall k :: |full| < k < WORK_SIZE ==> w'[k] == w[k]
    ensures "/" + Before(w'[1..]) == Effective(w, currentDir, input)
    ensures exists k :: 1 <= k < WORK_SIZE && w'[k] == NUL
  {
    var full := Full(currentDir, input);
    if full == [] {
      assert w'[1..] == w[1..];
    } else {
      var n := |full| - 1;
      assert forall k :: 0 <= k < n ==> w'[1..][k] == w'[..|full|][k + 1];
      assert w'[1..][..n] == full[1..];
      FullHasNoNul(currentDir, input);
      BeforeIs(w'[1..], n);
    }
  }

  lemma DirectoryIs(currentDir: string)
    ensures var c := Clip(currentDir, WORK_SIZE - 2);
            Directory(currentDir) == if c != [] && c[|c| - 1] != '/' then c + "/" else c
  {
  }

  lemma FullHasNoNul(currentDir: CString, input: CString)
    ensures NUL !in Full(currentDir, input)
  {
  }

  lemma StartText(b: string)
    requires |b| == WORK_SIZE && b[0] == '/' && exists k :: 1 <= k < WORK_SIZE && b[k] == NUL
    ensures var e := "/" + Before(b[1..]);
            && 1 <= |e| < WORK_SIZE && b[|e|] == NUL && e[0] == '/'
            && forall k :: 0 <= k < |e| ==> b[k] == e[k] != NUL
  {
    var t := Before(b[1..]);
    var e := "/" + t;
    var k :| 1 <= k < WORK_SIZE && b[k] == NUL;
    BeforeStops(b[1..], k - 1);
    assert b[1..][|t|] == NUL;
    forall i | 0 <= i < |e| ensures b[i] == e[i] != NUL {
      if i > 0 {
        assert e[i] == t[i - 1] && t[i - 1] in t;
        assert b[i] == b[1..][i - 1] == b[1..][..|t|][i - 1];
      }
    }
  }

  lemma StartFold(e: string, r: nat)
    requires r <= |e| && forall k :: 0 <= k < r ==> e[k] == '/'
    ensures Names(e) == Fold([], CutAll(Components(e[r..], "")))
    ensures Text([]) == "/" && AllNamed([]) && Cut("") == ""
  {
    SlashesSkip(e, 0, r);
    assert e[0..] == e;
  }

  lemma CutKeeps(cur: string)
    ensures |Cut(cur)| <= |cur| && ('/' !in cur ==> '/' !in Cut(cur))
  {
  }

  lemma AddCharacter(e: string, r: nat, cur: string)
    requires r < |e| && e[r] != '/'
    ensures Components(e[r..], cur) == Components(e[r + 1..], cur + [e[r]])
    ensures |Cut(cur)| == (if |cur| < 63 then |cur| else 63)
    ensures Cut(cur + [e[r]]) == if |cur| < 63 then Cut(cur) + [e[r]] else Cut(cur)
  {
    assert e[r..][1..] == e[r + 1..];
    if |cur| >= 63 {
      assert (cur + [e[r]])[..63] == cur[..63];
    }
  }

  lemma PushNamed(stack: seq<string>, cur: string)
    requires AllNamed(stack) && '/' !in cur
    ensures AllNamed(Push(stack, Cut(cur)))
  {
    CutKeeps(cur);
  }

  /** At a slash the component under way is done. */
  lemma EndComponent(e: string, r: nat, cur: string, stack: seq<string>)
    requires r < |e| && e[r] == '/' && '/' !in cur && AllNamed(stack)
    ensures Fold(stack, CutAll(Components(e[r..], cur)))
            == Fold(Push(stack, Cut(cur)), CutAll(Components(e[r..], "")))
    ensures AllNamed(Push(stack, Cut(cur))) && Applied(stack, Cut(cur), true) == Text(Push(stack, Cut(cur)))
  {
    PushNamed(stack, cur);
    var rest := Components(e[r..][1..], []);
    assert [] + rest == rest;
    assert Components(e[r..], "") == rest && Components(e[r..], cur) == Emit(cur) + rest;
    hide Components, Text, Join, Fold;
    if cur != [] {
      FoldOne(stack, cur, rest);
    }
  }

  /** At the end the component under way is the last, and a closing slash goes. */
  lemma LastComponent(e: string, cur: string, stack: seq<string>)
    requires '/' !in cur && AllNamed(stack) && Names(e) == Fold(stack, CutAll(Components(e[|e|..], cur)))
    ensures var t := Applied(stack, Cut(cur), false);
            |t| >= 1 && Normal(e) == if |t| > 1 && t[|t| - 1] == '/' then t[..|t| - 1] else t
  {
    var c, names := Cut(cur), Push(stack, Cut(cur));
    FoldLast(stack, cur);
    PushNamed(stack, cur);
    hide Fold, CutAll, Components, Names;
    CutKeeps(cur);
    var t := Applied(stack, c, false);
    if c != [] && c != "." && c != ".." {
      assert t[|t| - 1] == c[|c| - 1] && c[|c| - 1] in c;
    } else if names != [] {
      assert Text(names)[..|Text(names)| - 1] == Join(names);
      TextLonger(names);
    }
  }

  lemma FoldLast(stack: seq<string>, cur: string)
    ensures Fold(stack, CutAll(Components([], cur))) == Push(stack, Cut(cur))
  {
    if cur != [] {
      assert [cur] + [] == [cur];
      FoldOne(stack, cur, []);
    }
  }

  lemma TextLonger(stack: seq<string>)
    requires AllNamed(stack)
    ensures stack != [] <==> |Text(stack)| > 1
  {
    if stack != [] { assert Named(stack[|stack| - 1]); }
  }

  /** The text, ended by a NUL. */
  predicate Holds(buffer: string, t: string)
  {
    |t| < |buffer| && buffer[..|t|] == t && buffer[|t|] == NUL
  }

  lemma ResolvedMeans(work: string, currentDir: string, input: string, output: string)
    requires Holds(output, Normal(Effective(work, currentDir, input)))
    ensures RelativeFits(currentDir, input) ==> Holds(output, Join(NamesFrom(currentDir, input)))
    ensures input != [] && input[0] == '/' && |input| < 512 ==> Holds(output, Normal(input))
  {
    hide Normal, Effective, Full, NamesFrom, Join, RelativeFits;
    if RelativeFits(currentDir, input) { RelativeNames(work, currentDir, input); }
    if input != [] && input[0] == '/' && |input| < 512 {
      FullOfAbsolute(currentDir, input);
      AbsoluteIsKept(work, currentDir, input);
    }
  }

  class Resolver {
    const work: array<char>

    ghost predicate Valid()
      reads work
    {
      work.Length == WORK_SIZE && exists k :: 1 <= k < WORK_SIZE && work[k] == NUL
    }

    constructor ()
      ensures Valid() && fresh(work) && Settled(work[..])
    {
      work := new char[WORK_SIZE](_ => NUL);
      new;
      assert work[1] == NUL;
      SettledAtRoot(work[..]);
    }

    method ResolvePathH(currentDir: CString, input: CString, output: array<char>)
      requires Valid() && output != work
      modifies work, output
      ensures Valid() && (old(Settled(work[..])) ==> Settled(work[..]))
      ensures output.Length == 1 ==> output[0] == NUL
      ensures output.Length >= 2 ==>
                var t := Normal(Effective(old(work[..]), currentDir, input));
                var n := if |t| < output.Length - 1 then |t| else output.Length - 1;
                && |t| < WORK_SIZE && work[..|t|] == t && work[|t|] == NUL
                && output[..n] == t[..n] && output[n] == NUL
      // a relative path is taken from the working directory, an absolute one from the root
      ensures output.Length >= 512 && RelativeFits(currentDir, input) ==>
                Holds(output[..], Join(NamesFrom(currentDir, input)))
      ensures output.Length >= 512 && input != [] && input[0] == '/' && |input| < 512 ==>
                Holds(output[..], Normal(input))
    {
      if output.Length <= 1 {
        if output.Length > 0 { output[0] := NUL; }
        return;
      }
      hide Normal, Before, Effective, Full, NamesFrom, Join, RelativeFits, Settled;
      FillWork(currentDir, input);
      FilledText(old(work[..]), work[..], currentDir, input);
      assert work[..][1..] == work[1..];
      var w := Normalize();
      SettledAfter(old(work[..]), currentDir, input, work[..], w);
      CopyOut(w, output);
      if output.Length >= 512 {
        assert Holds(output[..], Normal(Effective(old(work[..]), currentDir, input)));
        ResolvedMeans(old(work[..]), currentDir, input, output[..]);
      }
    }

    /** Step 3: as much of the result as the output holds. */
    method CopyOut(w: nat, output: array<char>)
      requires output != work && w < work.Length && output.Length >= 2
      modifies output
      ensures var n := if w < output.Length - 1 then w else output.Length - 1;
              output[..n] == work[..n] && output[n] == NUL
    {
      var n := if w < output.Length - 1 then w else output.Length - 1;
      for i := 0 to n
        invariant forall k :: 0 <= k < i ==> output[k] == work[k]
      {
        output[i] := work[i];
      }
      output[n] := NUL;
    }

    /** Step 1: the full path in the buffer. */
    method FillWork(currentDir: CString, input: CString)
      requires work.Length == WORK_SIZE
      modifies work
      ensures var full := Full(currentDir, input);
              && work[..|full|] == full && work[|full|] == NUL
              && forall k :: |full| < k < WORK_SIZE ==> work[k] == old(work[k])
    {
      var i := 0;
      if input != [] && input[0] == '/' {
        i := CopyFrom(0, input, WORK_SIZE - 1);
      } else {
        i := FillDirectory(currentDir);
        i := CopyFrom(i, input, WORK_SIZE - 1);
      }
      work[i] := NUL;
    }

    method FillDirectory(currentDir: CString) returns (i: nat)
      requires work.Length == WORK_SIZE
      modifies work
      ensures i == |Directory(currentDir)| && work[..i] == Directory(currentDir)
      ensures forall k :: i <= k < WORK_SIZE ==> work[k] == old(work[k])
    {
      hide Clip, Directory;
      DirectoryIs(currentDir);
      var n := CopyFrom(0, currentDir, WORK_SIZE - 2);
      ghost var c := Clip(currentDir, WORK_SIZE - 2);
      assert work[..n] == c;
      i := AddSeparator(n);
      assert |work[..i]| == i;
    }

    method AddSeparator(n: nat) returns (i: nat)
      requires work.Length == WORK_SIZE && n < WORK_SIZE
      modifies work
      ensures var c := old(work[..n]);
              && i == (if c != [] && c[|c| - 1] != '/' then n + 1 else n)
              && work[..i] == if c != [] && c[|c| - 1] != '/' then c + "/" else c
      ensures forall k :: i <= k < WORK_SIZE ==> work[k] == old(work[k])
    {
      i := n;
      if i > 0 && work[i - 1] != '/' {
        work[i] := '/';
        i := i + 1;
      }
    }

    /** Append a string at i while the index stays below the limit. */
    method CopyFrom(i: nat, s: CString, limit: nat) returns (n: nat)
      requires work.Length == WORK_SIZE && i <= limit < WORK_SIZE
      modifies work
      ensures n == i + |Clip(s, limit - i)| && work[..n] == old(work[..i]) + Clip(s, limit - i)
      ensures forall k :: n <= k < WORK_SIZE ==> work[k] == old(work[k])
    {
      var j := 0;
      n := i;
      while j < |s| && n < limit
        invariant n == i + j <= limit && j <= |s|
        invariant work[..n] == old(work[..i]) + s[..j]
        invariant forall k :: n <= k < WORK_SIZE ==> work[k] == old(work[k])
      {
        work[n] := s[j];
        n, j := n + 1, j + 1;
      }
    }

    /** Move past the slashes at r. */
    method SkipSlashes(r: nat, ghost end: nat) returns (r': nat)
      requires r <= end < work.Length && work[end] == NUL
      ensures r <= r' <= end && work[r'] != '/' && forall k :: r <= k < r' ==> work[k] == '/'
    {
      r' := r;
      while work[r'] == '/'
        invariant r <= r' <= end && forall k :: r <= k < r' ==> work[k] == '/'
        decreases end - r'
      {
        r' := r' + 1;
      }
    }

    /** Back the write index up over the last name. */
    method PopName(w: nat, ghost stack: seq<string>) returns (w': nat)
      requires w <= work.Length && work[..w] == Text(stack) && AllNamed(stack)
      ensures w' <= w && work[..w'] == Text(Push(stack, ".."))
    {
      w' := w;
      if w' > 1 {
        TextLonger(stack);
        ghost var front, last := stack[..|stack| - 1], stack[|stack| - 1];
        ghost var n := |Text(front)|;
        assert forall k :: 0 <= k < w ==> work[k] == Text(stack)[k];
        assert Named(last);
        assert forall k :: n <= k < n + |last| ==> work[k] == last[k - n] && last[k - n] in last;
        w' := w' - 1;
        while w' > 1 && work[w' - 1] != '/'
          invariant n <= w' <= n + |last|
          decreases w'
        {
          w' := w' - 1;
        }
        assert work[..w'] == work[..w][..n];
      }
    }

    /** Act on the component just read. */
    method ApplyComponent(w: nat, component: array<char>, n: nat, more: bool, ghost stack: seq<string>)
      returns (w': nat)
      requires work.Length == WORK_SIZE && component != work && n <= component.Length && w + n < WORK_SIZE
      requires work[..w] == Text(stack) && AllNamed(stack) && '/' !in component[..n]
      modifies work
      ensures w' <= w + n + (if more then 1 else 0) && w' <= WORK_SIZE
      ensures work[..w'] == Applied(stack, component[..n], more)
      ensures forall k :: w + n < k < WORK_SIZE ==> work[k] == old(work[k])
      ensures more ==> work[w + n] == '/' || work[w + n] == old(work[w + n])
      ensures !more ==> work[w + n] == old(work[w + n])
    {
      ghost var c := component[..n];
      w' := w;
      if n == 0 {
      } else if n == 1 && component[0] == '.' {
        assert c == ".";
      } else if n == 2 && component[0] == '.' && component[1] == '.' {
        assert c == "..";
        w' := PopName(w, stack);
      } else {
        assert c[0] == component[0] && (n > 1 ==> c[1] == component[1]);
        assert c != "." && c != "..";
        w' := PushName(w, component, n, more);
        assert (stack + [c])[..|stack|] == stack;
      }
    }

    method PushName(w: nat, component: array<char>, n: nat, more: bool) returns (w': nat)
      requires work.Length == WORK_SIZE && component != work && n <= component.Length && w + n < WORK_SIZE
      modifies work
      ensures w' == w + n + (if more then 1 else 0)
      ensures work[..w'] == old(work[..w]) + component[..n] + (if more then "/" else "")
      ensures forall k :: w + n < k < WORK_SIZE ==> work[k] == old(work[k])
      ensures more ==> work[w + n] == '/'
      ensures !more ==> work[w + n] == old(work[w + n])
    {
      for i := 0 to n
        invariant work[..w + i] == old(work[..w]) + component[..i]
        invariant forall k :: w + n <= k < WORK_SIZE ==> work[k] == old(work[k])
      {
        work[w + i] := component[i];
      }
      w' := w + n;
      if more {
        work[w'] := '/';
        w' := w' + 1;
      }
    }

    /** A slash ends the component under way: act on it and move past the slashes. */
    method EndAt(r: nat, w: nat, component: array<char>, n: nat,
                 ghost b: string, ghost e: string, ghost stack: seq<string>, ghost cur: string)
      returns (r': nat, w': nat)
      requires work.Length == WORK_SIZE && component != work && n <= component.Length && component[..n] == Cut(cur)
      requires Progress(work[..], b, e, r, w, stack, cur) && r < |e| && e[r] == '/' && b[|e|] == NUL
      requires forall k :: 0 <= k < |e| ==> b[k] == e[k]
      modifies work
      ensures r < r' && Progress(work[..], b, e, r', w', Push(stack, Cut(cur)), "")
    {
      hide Normal, Names, Components, Fold, Push, Text, Join, Cut, CutAll, Applied, AllNamed;
      CutKeeps(cur);
      w' := ApplyComponent(w, component, n, true, stack);
      EndComponent(e, r, cur, stack);
      assert forall k :: r <= k < WORK_SIZE ==> work[k] == b[k];
      r' := SkipSlashes(r, |e|);
      SlashesSkip(e, r, r');
    }

    /** Step 2: normalise in place. The write index never passes the read index,
        so every byte is read before it is overwritten. */
    method Normalize() returns (w: nat)
      requires Valid()
      modifies work
      ensures Valid()
      ensures w < WORK_SIZE && work[..w] == Normal("/" + Before(old(work[1..]))) && work[w] == NUL
    {
      hide Normal, Before, Progress, Push, Cut, Names, Components, Fold, CutAll, Text, AllNamed;
      work[0] := '/';
      ghost var b := work[..];
      ghost var e := "/" + Before(b[1..]);
      assert b[1..] == old(work[1..]);
      StartText(b);
      var r := SkipSlashes(0, |e|);
      w := 1;
      var component := new char[64];
      var n := 0;
      ghost var stack, cur: string := [], "";
      StartFold(e, r);
      StartProgress(b, e, r);
      while work[r] != NUL
        invariant r <= |e| < WORK_SIZE && Progress(work[..], b, e, r, w, stack, cur) && work[r] == b[r]
        invariant n <= 63 && component[..n] == Cut(cur)
        decreases |e| - r
      {
        if work[r] == '/' {
          r, w := EndAt(r, w, component, n, b, e, stack, cur);
          stack, cur, n := Push(stack, Cut(cur)), "", 0;
        } else {
          CharStep(work[..], b, e, r, w, stack, cur);
          if n < 63 {
            component[n] := work[r];
            n := n + 1;
          }
          cur := cur + [e[r]];
          r := r + 1;
        }
        ProgressReads(work[..], b, e, r, w, stack, cur);
      }
      w := Finish(w, component, n, b, e, stack, cur);
    }

    /** The last component, the closing slash and the terminator. */
    method Finish(w: nat, component: array<char>, n: nat,
                  ghost b: string, ghost e: string, ghost stack: seq<string>, ghost cur: string) returns (w': nat)
      requires work.Length == WORK_SIZE && component != work && n <= component.Length && component[..n] == Cut(cur)
      requires Progress(work[..], b, e, |e|, w, stack, cur)
      modifies work
      ensures 1 <= w' < WORK_SIZE && work[..w'] == Normal(e) && work[w'] == NUL
    {
      hide Normal, Names, Components, Fold, Push, Text, Join, Cut, CutAll, Applied, AllNamed;
      CutKeeps(cur);
      w' := ApplyComponent(w, component, n, false, stack);
      LastComponent(e, cur, stack);
      ghost var t := work[..w'];
      if w' > 1 && work[w' - 1] == '/' {
        w' := w' - 1;
        assert work[..w'] == t[..w'];
      }
      work[w'] := NUL;
    }
  }

  /** Where the rewriting stands: the names so far are written before w, the bytes
      from r on are unread and untouched, and the rest is still to be folded in. */
  ghost predicate Progress(buffer: string, b: string, e: string, r: nat, w: nat, stack: seq<string>, cur: string)
  {
    && |buffer| == |b| == WORK_SIZE && w + |cur| <= r <= |e| < WORK_SIZE
    && (forall k :: r <= k < WORK_SIZE ==> buffer[k] == b[k])
    && buffer[..w] == Text(stack) && AllNamed(stack) && '/' !in cur
    && Names(e) == Fold(stack, CutAll(Components(e[r..], cur)))
  }

  lemma StartProgress(b: string, e: string, r: nat)
    requires |b| == WORK_SIZE && b[0] == '/' && 1 <= r <= |e| < WORK_SIZE
    requires Names(e) == Fold([], CutAll(Components(e[r..], "")))
    ensures Progress(b, b, e, r, 1, [], "")
  {
    hide Names, Fold, CutAll, Components;
    assert b[..1] == "/" == Text([]);
  }

  lemma CharStep(buffer: string, b: string, e: string, r: nat, w: nat, stack: seq<string>, cur: string)
    requires Progress(buffer, b, e, r, w, stack, cur) && r < |e| && e[r] != '/'
    ensures Progress(buffer, b, e, r + 1, w, stack, cur + [e[r]])
    ensures |Cut(cur)| == (if |cur| < 63 then |cur| else 63)
    ensures Cut(cur + [e[r]]) == if |cur| < 63 then Cut(cur) + [e[r]] else Cut(cur)
  {
    AddCharacter(e, r, cur);
    hide Names, Fold, CutAll, Components, Cut, Text, AllNamed;
  }

  lemma ProgressReads(buffer: string, b: string, e: string, r: nat, w: nat, stack: seq<string>, cur: string)
    requires Progress(buffer, b, e, r, w, stack, cur)
    ensures |buffer| == |b| == WORK_SIZE && r <= |e| < WORK_SIZE && buffer[r] == b[r]
  {
    hide Names, Fold, CutAll, Components, Cut, Text, AllNamed;
  }
}
