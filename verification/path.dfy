/** Path names (filesys/path.c): joining, taking apart and normalizing them. */
module Path {
  import opened Wrappers
  import opened Tokens

  const SLASH: string := "/"

  predicate ValidChar(c: char) {
    c == '-' || c == '.' || c == '/' || '0' <= c <= '9' || 'A' <= c <= 'Z' || c == '_' || 'a' <= c <= 'z'
  }

  predicate IsValid(path: string) {
    |path| > 0 && forall i :: 0 <= i < |path| ==> ValidChar(path[i])
  }

  /** path_isvalid. */
  method PathIsValid(path: string) returns (success: bool)
    ensures success <==> IsValid(path)
  {
    success := |path| > 0;
    var i := 0;
    while i < |path| && success
      invariant i <= |path| && (success <==> |path| > 0 && forall k :: 0 <= k < i ==> ValidChar(path[k]))
    {
      var c := path[i];
      success := c == '-' || c == '.' || c == '/' || '0' <= c <= '9' || 'A' <= c <= 'Z' || c == '_' || 'a' <= c <= 'z';
      i := i + 1;
    }
  }

  predicate IsAbs(path: string) {
    IsValid(path) && path[0] == '/'
  }

  function Parts(path: string): seq<string> {
    Split(path, SLASH)
  }

  // ---- joining ----

  /** path_join2 for two names that are there. */
  function Join2(path1: string, path2: string): string
    requires |path1| > 0
  {
    if IsAbs(path2) then path2
    else if path1[|path1| - 1] == '/' then path1 + path2
    else path1 + SLASH + path2
  }

  /** strlcpy with room for all of src: the string and its null byte. */
  method CopyString(dst: array<char>, ofs: nat, src: string)
    requires ofs + |src| < dst.Length
    modifies dst
    ensures dst[ofs..ofs + |src|] == src && dst[ofs + |src|] == NUL
    ensures forall k :: 0 <= k < dst.Length && !(ofs <= k <= ofs + |src|) ==> dst[k] == old(dst[k])
  {
    for i := 0 to |src|
      invariant forall k :: 0 <= k < dst.Length ==> dst[k] == if ofs <= k < ofs + i then src[k - ofs] else old(dst[k])
    {
      dst[ofs + i] := src[i];
    }
    dst[ofs + |src|] := NUL;
  }

  /** path_join2. */
  method PathJoin2(path1: string, path2: string) returns (r: string)
    requires |path1| > 0
    ensures r == Join2(path1, path2)
    ensures path2 != [] && path2[0] == '/' && IsValid(path2) ==> r == path2
    ensures !(path2 != [] && path2[0] == '/' && IsValid(path2)) ==>
              exists n :: 0 < n <= |r| && r[n..] == path2 && r[n - 1] == '/' &&
                (r[..n] == path1 || (r[..n - 1] == path1 && path1[|path1| - 1] != '/'))
  {
    var abs := IsAbs(path2);
    if abs {
      r := Paste(path2, "");
      assert path2 + "" == path2;
    } else if path1[|path1| - 1] == '/' {
      r := Paste(path1, path2);
      assert r[|path1|..] == path2 && r[..|path1|] == path1;
    } else {
      r := Paste(path1 + SLASH, path2);
      assert r[|path1| + 1..] == path2 && r[..|path1|] == path1;
    }
  }

  /** Two strings copied one after the other into a new buffer. */
  method Paste(a: string, b: string) returns (r: string)
    ensures r == a + b
  {
    var n := |a| + |b|;
    var ret := new char[n + 1];
    CopyString(ret, 0, a);
    CopyString(ret, |a|, b);
    assert ret[..n] == ret[..|a|] + ret[|a|..n];
    r := ret[..n];
  }

  // ---- walking over the parts ----

  /** A copy of the name in a buffer that strtok_r may cut up. */
  method Duplicate(path: string) returns (buf: array<char>)
    requires NUL !in path
    ensures fresh(buf) && Ahead(buf, path, 0, 0)
  {
    buf := new char[|path| + 1];
    CopyString(buf, 0, path);
    assert forall k :: 0 <= k < |path| ==> buf[k] == buf[0..|path|][k];
    assert path[0..] == path && Parts(path)[0..] == Parts(path);
  }

  method CStringAt(buf: array<char>, i: nat, ghost end: nat) returns (r: string)
    requires i <= end < buf.Length && buf[end] == NUL && forall k :: i <= k < end ==> buf[k] != NUL
    ensures r == buf[i..end]
  {
    var j := i;
    while buf[j] != NUL
      invariant i <= j <= end
      decreases end - j
    {
      j := j + 1;
    }
    r := buf[i..j];
  }

  /** The parts of `path` from number k on are still to be cut out of the buffer, from position p on. */
  ghost predicate Ahead(buf: array<char>, path: string, p: nat, k: nat)
    reads buf
  {
    Holds(buf, path, p) && k <= |Parts(path)| && Parts(path)[k..] == Parts(path[p..])
  }

  /** Part number k of the name. */
  method NextPart(buf: array<char>, p: nat, ghost path: string, ghost k: nat) returns (part: Option<string>, save: nat)
    requires Ahead(buf, path, p, k)
    modifies buf
    ensures part.None? <==> k == |Parts(path)|
    ensures part.Some? ==> part.value == Parts(path)[k] && Ahead(buf, path, save, k + 1)
  {
    ghost var end;
    var token;
    token, save, end := StrtokR(buf, p, SLASH, path);
    SplitIsTexts(path, SLASH, p);
    SplitIsTexts(path, SLASH, save);
    if token.Some? {
      var t := CStringAt(buf, token.value, end);
      part := Some(t);
      assert t == path[token.value..end];
      assert Parts(path[p..]) == [t] + Parts(path[save..]);
      assert Parts(path)[k + 1..] == Parts(path)[k..][1..];
    } else {
      part := None;
    }
  }

  // ---- what the operations compute ----

  /** The first n parts put together from the left. */
  function Chain(abs: bool, parts: seq<string>, n: nat): (r: string)
    requires n <= |parts| && forall i :: 0 <= i < |parts| ==> |parts[i]| > 0
    ensures |r| > 0
  {
    if n == 0 then (if abs then SLASH else ".")
    else if n == 1 then (if abs then Join2(SLASH, parts[0]) else parts[0])
    else Join2(Chain(abs, parts, n - 1), parts[n - 1])
  }

  /** What the parts of a name look like. */
  ghost predicate IsPart(part: string, path: string) {
    |part| > 0 && forall c :: c in part ==> c != '/' && c in path
  }

  lemma {:induction false} PartsOf(path: string)
    ensures forall i :: 0 <= i < |Parts(path)| ==> IsPart(Parts(path)[i], path)
    decreases |path|
  {
    if path != [] {
      var j := End(path, SLASH, 0);
      var rest := if path[0] in SLASH then path[1..] else path[j..];
      PartsOf(rest);
      assert forall c :: c in rest ==> c in path;
      assert Parts(path) == (if path[0] in SLASH then [] else [path[..j]]) + Parts(rest);
      forall i | 0 <= i < |Parts(path)| ensures IsPart(Parts(path)[i], path) {
        assert path[0] in SLASH ==> Parts(path)[i] == Parts(rest)[i];
        assert path[0] !in SLASH && i > 0 ==> Parts(path)[i] == Parts(rest)[i - 1];
      }
    }
  }

  lemma PartsNonempty(path: string)
    ensures forall i :: 0 <= i < |Parts(path)| ==> |Parts(path)[i]| > 0
  {
    PartsOf(path);
  }

  function DirName(path: string): string {
    PartsNonempty(path);
    var parts := Parts(path);
    Chain(IsAbs(path), parts, if parts == [] then 0 else |parts| - 1)
  }

  function BaseName(path: string): string {
    var parts := Parts(path);
    if parts == [] then (if IsAbs(path) then SLASH else ".") else parts[|parts| - 1]
  }

  /** One round of path_normpath's loop. */
  function NormStep(abs: bool, ret: Option<string>, part: string): (r: Option<string>)
    requires |part| > 0 && (ret.Some? ==> |ret.value| > 0)
    ensures r.Some? ==> |r.value| > 0
  {
    if part == ".." then (if ret.Some? then Some(DirName(ret.value)) else Some(if abs then SLASH else part))
    else if part == "." then ret
    else if ret.None? then Some(if abs then Join2(SLASH, part) else part)
    else Some(Join2(ret.value, part))
  }

  /** The name after n rounds. */
  function NormParts(abs: bool, parts: seq<string>, n: nat): (r: Option<string>)
    requires n <= |parts| && forall i :: 0 <= i < |parts| ==> |parts[i]| > 0
    ensures r.Some? ==> |r.value| > 0
  {
    if n == 0 then None else NormStep(abs, NormParts(abs, parts, n - 1), parts[n - 1])
  }

  function NormPath(path: string): string {
    PartsNonempty(path);
    var r := NormParts(IsAbs(path), Parts(path), |Parts(path)|);
    if r.None? then (if IsAbs(path) then SLASH else ".") else r.value
  }

  /** path_abspath, in working directory cwd. */
  function AbsPath(cwd: string, path: string): string
    requires |cwd| > 0
  {
    NormPath(Join2(cwd, path))
  }

  // ---- the operations ----

  /** path_dirname. */
  method PathDirname(path: string) returns (r: string)
    requires NUL !in path
    ensures r == DirName(path)
  {
    PartsNonempty(path);
    var abs := IsAbs(path);
    var ret := JoinAllButLast(path, abs);
    r := if ret.None? then (if abs then SLASH else ".") else ret.value;
  }

  /** The loop of path_dirname. */
  method JoinAllButLast(path: string, abs: bool) returns (ret: Option<string>)
    requires NUL !in path && forall i :: 0 <= i < |Parts(path)| ==> |Parts(path)[i]| > 0
    ensures ret.None? <==> |Parts(path)| <= 1
    ensures ret.Some? ==> ret.value == Chain(abs, Parts(path), |Parts(path)| - 1)
  {
    ghost var parts, k := Parts(path), 0;
    var buf := Duplicate(path);
    var token: Option<string> := None;
    ret := None;
    var sentry, save := NextPart(buf, 0, path, 0);
    while sentry.Some?
      invariant fresh(buf) && DirState(abs, parts, k, token, ret)
      invariant sentry.None? <==> k == |parts|
      invariant sentry.Some? ==> sentry.value == parts[k] && Ahead(buf, path, save, k + 1)
      decreases |parts| - k
    {
      ret := DirStep(abs, parts, k, token, ret);
      k := k + 1;
      token := sentry;
      sentry, save := NextPart(buf, save, path, k);
    }
  }

  /** After k parts, the last is held back in token and those before it are joined in ret. */
  ghost predicate DirState(abs: bool, parts: seq<string>, k: nat, token: Option<string>, ret: Option<string>) {
    && k <= |parts| && (forall i :: 0 <= i < |parts| ==> |parts[i]| > 0)
    && (token.None? <==> k == 0) && (token.Some? ==> token.value == parts[k - 1])
    && (ret.None? <==> k <= 1) && (ret.Some? ==> ret.value == Chain(abs, parts, k - 1))
  }

  /** The loop body of path_dirname: the part held back joins the others. */
  method DirStep(abs: bool, ghost parts: seq<string>, ghost k: nat, token: Option<string>, ret: Option<string>)
      returns (r: Option<string>)
    requires DirState(abs, parts, k, token, ret) && k < |parts|
    ensures DirState(abs, parts, k + 1, Some(parts[k]), r)
  {
    if token.None? {
      r := ret;
    } else if ret.None? {
      if abs {
        var j := PathJoin2(SLASH, token.value);
        r := Some(j);
      } else {
        r := token;
      }
    } else {
      var j := PathJoin2(ret.value, token.value);
      r := Some(j);
    }
  }

  /** path_basename. */
  method PathBasename(path: string) returns (r: string)
    requires NUL !in path
    ensures r == BaseName(path)
  {
    ghost var parts, k := Parts(path), 0;
    var buf := Duplicate(path);
    var ret: Option<string> := None;
    var token, save := NextPart(buf, 0, path, 0);
    while token.Some?
      invariant fresh(buf) && k <= |parts|
      invariant token.None? <==> k == |parts|
      invariant token.Some? ==> token.value == parts[k] && Ahead(buf, path, save, k + 1)
      invariant ret.None? <==> k == 0
      invariant ret.Some? ==> ret.value == parts[k - 1]
      decreases |parts| - k
    {
      ret := token;
      k := k + 1;
      token, save := NextPart(buf, save, path, k);
    }
    var abs := IsAbs(path);
    r := if ret.None? then (if abs then SLASH else ".") else ret.value;
  }

  /** The loop body of path_normpath. */
  method Normalize(abs: bool, ret: Option<string>, part: string) returns (r: Option<string>)
    requires |part| > 0 && (ret.Some? ==> |ret.value| > 0 && NUL !in ret.value)
    ensures r == NormStep(abs, ret, part)
  {
    if part == ".." {
      if ret.Some? {
        var d := PathDirname(ret.value);
        return Some(d);
      } else if abs {
        return Some(SLASH);
      } else {
        return Some(part);
      }
    } else if part == "." {
      return ret;
    } else if ret.None? {
      if abs {
        var j := PathJoin2(SLASH, part);
        return Some(j);
      } else {
        return Some(part);
      }
    } else {
      var j := PathJoin2(ret.value, part);
      return Some(j);
    }
  }

  lemma {:induction false} ChainNoNul(abs: bool, parts: seq<string>, n: nat)
    requires n <= |parts| && forall i :: 0 <= i < |parts| ==> |parts[i]| > 0 && NUL !in parts[i]
    ensures NUL !in Chain(abs, parts, n)
  {
    if n > 1 {
      ChainNoNul(abs, parts, n - 1);
    }
  }

  lemma NormStepNoNul(abs: bool, ret: Option<string>, part: string)
    requires |part| > 0 && NUL !in part && (ret.Some? ==> |ret.value| > 0 && NUL !in ret.value)
    ensures NormStep(abs, ret, part).Some? ==> NUL !in NormStep(abs, ret, part).value
  {
    if part == ".." && ret.Some? {
      var parts := Parts(ret.value);
      PartsOf(ret.value);
      ChainNoNul(IsAbs(ret.value), parts, if parts == [] then 0 else |parts| - 1);
    }
  }

  /** path_normpath. */
  method PathNormpath(path: string) returns (r: string)
    requires NUL !in path
    ensures r == NormPath(path)
  {
    PartsOf(path);
    ghost var parts, k := Parts(path), 0;
    var abs := IsAbs(path);
    var buf := Duplicate(path);
    var ret: Option<string> := None;
    var token, save := NextPart(buf, 0, path, 0);
    while token.Some?
      invariant fresh(buf) && k <= |parts|
      invariant token.None? <==> k == |parts|
      invariant token.Some? ==> token.value == parts[k] && Ahead(buf, path, save, k + 1)
      invariant ret == NormParts(abs, parts, k) && (ret.Some? ==> NUL !in ret.value)
      decreases |parts| - k
    {
      NormStepNoNul(abs, ret, token.value);
      ret := Normalize(abs, ret, token.value);
      k := k + 1;
      token, save := NextPart(buf, save, path, k);
    }
    r := if ret.None? then (if abs then SLASH else ".") else ret.value;
  }

  /** path_abspath. */
  method PathAbspath(cwd: string, path: string) returns (r: string)
    requires |cwd| > 0 && NUL !in cwd && NUL !in path
    ensures r == AbsPath(cwd, path)
  {
    var join := PathJoin2(cwd, path);
    r := PathNormpath(join);
  }

  // ---- splitting what was joined ----

  lemma {:induction false} EndOfJoin(a: string, b: string, i: nat)
    requires i <= |a|
    ensures End(a + SLASH + b, SLASH, i) == End(a, SLASH, i)
    decreases |a| - i
  {
    if i < |a| && a[i] != '/' {
      EndOfJoin(a, b, i + 1);
    }
  }

  lemma {:induction false} PartsOfJoin(a: string, b: string)
    ensures Parts(a + SLASH + b) == Parts(a) + Parts(b)
    decreases |a|
  {
    var s := a + SLASH + b;
    if a == [] {
      assert s[1..] == b;
    } else if a[0] == '/' {
      assert s[1..] == a[1..] + SLASH + b;
      PartsOfJoin(a[1..], b);
    } else {
      var j := End(a, SLASH, 0);
      EndOfJoin(a, b, 0);
      assert s[..j] == a[..j] && s[j..] == a[j..] + SLASH + b;
      PartsOfJoin(a[j..], b);
    }
  }

  /** A component of a valid name. */
  ghost predicate Component(t: string) {
    IsValid(t) && '/' !in t
  }

  lemma PartsOfComponent(t: string)
    requires Component(t)
    ensures Parts(t) == [t]
  {
    var j := End(t, SLASH, 0);
    assert t[0] != '/' && j == |t|;
    assert t[..j] == t && t[j..] == [];
    assert Split(t[j..], SLASH) == [];
  }

  ghost predicate AllComponents(parts: seq<string>) {
    forall i :: 0 <= i < |parts| ==> Component(parts[i])
  }

  // ---- stacks ----

  /** The absolute name of a stack of components, the root for the empty one. */
  function Render(stack: seq<string>): (r: string)
    ensures |r| > 0
  {
    if stack == [] then SLASH
    else if |stack| == 1 then SLASH + stack[0]
    else Render(stack[..|stack| - 1]) + SLASH + stack[|stack| - 1]
  }

  /** What a component does to the stack. */
  function Visit(stack: seq<string>, part: string): seq<string> {
    if part == ".." then (if stack == [] then [] else stack[..|stack| - 1])
    else if part == "." then stack
    else stack + [part]
  }

  /** The stack after the first n components. */
  function Eval(stack: seq<string>, parts: seq<string>, n: nat): seq<string>
    requires n <= |parts|
  {
    if n == 0 then stack else Visit(Eval(stack, parts, n - 1), parts[n - 1])
  }

  /** The stack after all components. */
  function EvalAll(stack: seq<string>, parts: seq<string>): seq<string> {
    Eval(stack, parts, |parts|)
  }

  lemma {:induction false} RenderAbs(stack: seq<string>)
    requires AllComponents(stack)
    ensures IsAbs(Render(stack)) && (stack != [] ==> Render(stack)[|Render(stack)| - 1] != '/')
  {
    if stack != [] {
      var n := |stack| - 1;
      assert stack[n][|stack[n]| - 1] in stack[n];
      if n > 0 {
        RenderAbs(stack[..n]);
      }
    }
  }

  lemma {:induction false} RenderSplit(stack: seq<string>)
    requires AllComponents(stack)
    ensures Parts(Render(stack)) == stack
  {
    if stack == [] {
      assert Split(SLASH[1..], SLASH) == [];
    } else {
      var n := |stack| - 1;
      var t := stack[n];
      PartsOfComponent(t);
      if n == 0 {
        assert (SLASH + t)[1..] == t;
      } else {
        RenderSplit(stack[..n]);
        PartsOfJoin(Render(stack[..n]), t);
      }
    }
  }

  /** The stack's name is absolute, and taking it apart gives the stack back. */
  lemma RenderParts(stack: seq<string>)
    requires AllComponents(stack)
    ensures IsAbs(Render(stack)) && Parts(Render(stack)) == stack
    ensures stack != [] ==> Render(stack)[|Render(stack)| - 1] != '/'
  {
    RenderAbs(stack);
    RenderSplit(stack);
  }

  /** Joining a component to the name of a stack pushes it. */
  lemma JoinPushes(stack: seq<string>, t: string)
    requires AllComponents(stack) && Component(t)
    ensures Join2(Render(stack), t) == Render(stack + [t])
  {
    RenderParts(stack);
    assert t[0] != '/';
    assert (stack + [t])[..|stack|] == stack;
  }

  lemma {:induction false} ChainRenders(parts: seq<string>, n: nat)
    requires AllComponents(parts) && n <= |parts|
    ensures Chain(true, parts, n) == Render(parts[..n])
  {
    if n > 0 {
      ChainRenders(parts, n - 1);
      JoinPushes(parts[..n - 1], parts[n - 1]);
      assert parts[..n - 1] + [parts[n - 1]] == parts[..n];
    }
  }

  /** The directory of a stack's name is the stack without its top. */
  lemma DirNamePops(stack: seq<string>)
    requires AllComponents(stack)
    ensures DirName(Render(stack)) == Render(if stack == [] then [] else stack[..|stack| - 1])
  {
    RenderParts(stack);
    ChainRenders(stack, if stack == [] then 0 else |stack| - 1);
  }

  lemma BaseNameTops(stack: seq<string>)
    requires AllComponents(stack) && stack != []
    ensures BaseName(Render(stack)) == stack[|stack| - 1]
  {
    RenderSplit(stack);
  }

  /** The name so far stands for the stack so far; none stands for the empty one. */
  ghost predicate Names(ret: Option<string>, stack: seq<string>) {
    if ret.None? then stack == [] else ret.value == Render(stack)
  }

  lemma NormStepVisits(ret: Option<string>, stack: seq<string>, part: string)
    requires AllComponents(stack) && Component(part) && Names(ret, stack) && (ret.Some? ==> |ret.value| > 0)
    ensures Names(NormStep(true, ret, part), Visit(stack, part)) && AllComponents(Visit(stack, part))
  {
    if part == ".." {
      DirNamePops(stack);
    } else if part != "." {
      JoinPushes(stack, part);
    }
  }

  lemma {:induction false} NormPartsEvaluate(parts: seq<string>, n: nat)
    requires AllComponents(parts) && n <= |parts|
    ensures Names(NormParts(true, parts, n), Eval([], parts, n)) && AllComponents(Eval([], parts, n))
  {
    if n > 0 {
      NormPartsEvaluate(parts, n - 1);
      NormStepVisits(NormParts(true, parts, n - 1), Eval([], parts, n - 1), parts[n - 1]);
    }
  }

  lemma PartsAreComponents(path: string)
    requires path == [] || IsValid(path)
    ensures AllComponents(Parts(path))
  {
    PartsOf(path);
    forall i | 0 <= i < |Parts(path)| ensures Component(Parts(path)[i]) {
      var t := Parts(path)[i];
      assert IsPart(t, path);
      assert forall k :: 0 <= k < |t| ==> t[k] in t;
    }
  }

  // ---- the theorems ----

  /** Normalizing a valid absolute name evaluates its components on a stack. */
  lemma NormPathEvaluates(path: string)
    requires IsAbs(path)
    ensures AllComponents(EvalAll([], Parts(path))) && NormPath(path) == Render(EvalAll([], Parts(path)))
  {
    PartsAreComponents(path);
    NormPartsEvaluate(Parts(path), |Parts(path)|);
  }

  /** A stack without "." and "..". */
  ghost predicate Plain(stack: seq<string>) {
    AllComponents(stack) && forall i :: 0 <= i < |stack| ==> stack[i] != "." && stack[i] != ".."
  }

  lemma {:induction false} EvalIsPlain(stack: seq<string>, parts: seq<string>, n: nat)
    requires Plain(stack) && AllComponents(parts) && n <= |parts|
    ensures Plain(Eval(stack, parts, n))
  {
    if n > 0 {
      EvalIsPlain(stack, parts, n - 1);
    }
  }

  lemma {:induction false} EvalPlain(parts: seq<string>, n: nat)
    requires Plain(parts) && n <= |parts|
    ensures Eval([], parts, n) == parts[..n]
  {
    if n > 0 {
      EvalPlain(parts, n - 1);
    }
  }

  /** Evaluating one list of components after another. */
  lemma {:induction false} EvalPrefix(stack: seq<string>, a: seq<string>, b: seq<string>, n: nat)
    requires n <= |a|
    ensures Eval(stack, a + b, n) == Eval(stack, a, n)
  {
    if n > 0 {
      EvalPrefix(stack, a, b, n - 1);
    }
  }

  lemma {:induction false} EvalConcat(stack: seq<string>, a: seq<string>, b: seq<string>, n: nat)
    requires n <= |b|
    ensures Eval(stack, a + b, |a| + n) == Eval(EvalAll(stack, a), b, n)
  {
    if n == 0 {
      EvalPrefix(stack, a, b, |a|);
    } else {
      EvalConcat(stack, a, b, n - 1);
    }
  }

  /** Normalizing twice is normalizing once. */
  lemma NormPathIdempotent(path: string)
    requires IsAbs(path)
    ensures IsAbs(NormPath(path)) && NormPath(NormPath(path)) == NormPath(path)
  {
    NormPathEvaluates(path);
    PartsAreComponents(path);
    EvalIsPlain([], Parts(path), |Parts(path)|);
    var stack := EvalAll([], Parts(path));
    RenderParts(stack);
    NormPathEvaluates(NormPath(path));
    EvalPlain(stack, |stack|);
    assert stack[..|stack|] == stack;
  }

  /** What one more component does to a normalized name: "." nothing, ".." after a component undoes it, any other adds itself. */
  lemma NormPathLaws(path: string, t: string)
    requires IsAbs(path) && Component(t) && t != "." && t != ".."
    ensures NormPath(path + "/.") == NormPath(path)
    ensures NormPath(path + "/" + t) == if NormPath(path) == "/" then "/" + t else NormPath(path) + "/" + t
    ensures NormPath(path + "/" + t + "/..") == NormPath(path)
    ensures NormPath(path) == "/" ==> NormPath(path + "/..") == "/"
  {
    hide NormPath, Parts, EvalAll, Render;
    var stack := EvalAll([], Parts(path));
    NormPathEvaluates(path);
    OneMore(path, ".");
    OneMore(path, "..");
    OneMore(path, t);
    OneMore(path + "/" + t, "..");
    assert (stack + [t])[..|stack|] == stack;
    assert path + "/" + "." == path + "/." && path + "/" + ".." == path + "/..";
    assert path + "/" + t + "/" + ".." == path + "/" + t + "/..";
    RenderMore(stack, t);
  }

  lemma RenderMore(stack: seq<string>, t: string)
    requires AllComponents(stack)
    ensures Render(stack) == "/" <==> stack == []
    ensures Render(stack + [t]) == if stack == [] then "/" + t else Render(stack) + "/" + t
  {
    RenderSplit(stack);
    RenderSplit([]);
    assert (stack + [t])[..|stack|] == stack;
  }

  lemma OneMore(path: string, t: string)
    requires IsAbs(path) && Component(t)
    ensures IsAbs(path + "/" + t)
    ensures EvalAll([], Parts(path + "/" + t)) == Visit(EvalAll([], Parts(path)), t)
    ensures NormPath(path + "/" + t) == Render(EvalAll([], Parts(path + "/" + t)))
  {
    PartsOfJoin(path, t);
    PartsOfComponent(t);
    EvalPrefix([], Parts(path), [t], |Parts(path)|);
    NormPathEvaluates(path + "/" + t);
  }

  lemma JoinedParts(cwd: seq<string>, path: string)
    requires AllComponents(cwd) && !IsAbs(path) && (path == [] || IsValid(path))
    ensures IsAbs(Join2(Render(cwd), path)) && Parts(Join2(Render(cwd), path)) == cwd + Parts(path)
  {
    RenderParts(cwd);
    JoinIsAbs(Render(cwd), path);
    if cwd == [] {
      assert Join2(Render(cwd), path) == [] + SLASH + path;
      PartsOfJoin([], path);
      assert Parts([]) == [];
    } else {
      PartsOfJoin(Render(cwd), path);
    }
  }

  lemma JoinIsAbs(cwd: string, path: string)
    requires IsAbs(cwd) && !IsAbs(path) && (path == [] || IsValid(path))
    ensures IsAbs(Join2(cwd, path))
  {
  }

  /** From a normalized working directory, path_abspath evaluates the name's components on the directory's stack. */
  lemma AbsPathEvaluates(cwd: seq<string>, path: string)
    requires Plain(cwd) && (path == [] || IsValid(path))
    ensures AbsPath(Render(cwd), path) == Render(EvalAll(if IsAbs(path) then [] else cwd, Parts(path)))
  {
    if IsAbs(path) {
      NormPathEvaluates(path);
    } else {
      JoinedParts(cwd, path);
      NormPathEvaluates(Join2(Render(cwd), path));
      EvalFrom(cwd, Parts(path));
    }
  }

  /** A plain stack is where evaluating its own components leads. */
  lemma EvalFrom(stack: seq<string>, parts: seq<string>)
    requires Plain(stack)
    ensures EvalAll([], stack + parts) == EvalAll(stack, parts)
  {
    EvalConcat([], stack, parts, |parts|);
    EvalPlain(stack, |stack|);
    assert stack[..|stack|] == stack;
  }

  /** The directory and base names of a normalized name other than the root join to the name. */
  lemma DirBaseJoin(stack: seq<string>)
    requires Plain(stack) && stack != []
    ensures Join2(DirName(Render(stack)), BaseName(Render(stack))) == Render(stack)
  {
    DirNamePops(stack);
    BaseNameTops(stack);
    PushTop(stack);
  }

  lemma PushTop(stack: seq<string>)
    requires AllComponents(stack) && stack != []
    ensures Join2(Render(stack[..|stack| - 1]), stack[|stack| - 1]) == Render(stack)
  {
    var n := |stack| - 1;
    assert stack[..n] + [stack[n]] == stack;
    JoinPushes(stack[..n], stack[n]);
  }

  // ---- relative names ----

  /** The relative name of a list of components, "." for none. */
  function RenderRelative(parts: seq<string>): (r: string)
    requires forall i :: 0 <= i < |parts| ==> |parts[i]| > 0
    ensures |r| > 0
  {
    if parts == [] then "."
    else if |parts| == 1 then parts[0]
    else RenderRelative(parts[..|parts| - 1]) + SLASH + parts[|parts| - 1]
  }

  lemma {:induction false} RelativeEnds(parts: seq<string>)
    requires AllComponents(parts)
    ensures var r := RenderRelative(parts); IsValid(r) && r[0] != '/' && r[|r| - 1] != '/'
  {
    if parts != [] {
      var n := |parts| - 1;
      assert parts[n][|parts[n]| - 1] in parts[n] && parts[n][0] in parts[n];
      if n > 0 {
        RelativeEnds(parts[..n]);
      }
    }
  }

  lemma {:induction false} RelativeParts(parts: seq<string>)
    requires AllComponents(parts) && parts != []
    ensures Parts(RenderRelative(parts)) == parts
  {
    var n := |parts| - 1;
    PartsOfComponent(parts[n]);
    if n > 0 {
      RelativeParts(parts[..n]);
      PartsOfJoin(RenderRelative(parts[..n]), parts[n]);
      assert parts[..n] + [parts[n]] == parts;
    } else {
      assert parts == [parts[0]];
    }
  }

  lemma RelativeJoin(parts: seq<string>, t: string)
    requires AllComponents(parts) && parts != [] && Component(t)
    ensures Join2(RenderRelative(parts), t) == RenderRelative(parts + [t])
  {
    RelativeEnds(parts);
    assert t[0] in t;
    assert (parts + [t])[..|parts|] == parts;
  }

  lemma {:induction false} RelativeChain(parts: seq<string>, n: nat)
    requires AllComponents(parts) && n <= |parts|
    ensures Chain(false, parts, n) == RenderRelative(parts[..n])
  {
    if n > 1 {
      RelativeChain(parts, n - 1);
      RelativeJoin(parts[..n - 1], parts[n - 1]);
      assert parts[..n - 1] + [parts[n - 1]] == parts[..n];
    }
  }

  /** The directory of a relative name drops its last component, and is "." for a single one. */
  lemma RelativeDirName(parts: seq<string>)
    requires AllComponents(parts) && parts != []
    ensures DirName(RenderRelative(parts)) == RenderRelative(parts[..|parts| - 1])
  {
    RelativeEnds(parts);
    RelativeParts(parts);
    RelativeChain(parts, |parts| - 1);
  }

  lemma RelativeBaseName(parts: seq<string>)
    requires AllComponents(parts) && parts != []
    ensures BaseName(RenderRelative(parts)) == parts[|parts| - 1]
  {
    RelativeParts(parts);
  }

  /** What a relative name that has climbed above its start keeps in front. */
  datatype Anchor = Nothing | Dot | DotDot

  function AnchorParts(a: Anchor): seq<string> {
    match a
    case Nothing => []
    case Dot => ["."]
    case DotDot => [".."]
  }

  /** The anchor after one more component on a stack. */
  function Climb(a: Anchor, stack: seq<string>, part: string): Anchor {
    if part != ".." || |stack| >= 2 then a
    else if |stack| == 1 then (if a == Nothing then Dot else a)
    else if a == Nothing then DotDot else Dot
  }

  function AnchorAfter(parts: seq<string>, n: nat): Anchor
    requires n <= |parts|
  {
    if n == 0 then Nothing else Climb(AnchorAfter(parts, n - 1), Eval([], parts, n - 1), parts[n - 1])
  }

  /** The name so far stands for the anchor and the stack so far; none stands for nothing. */
  ghost predicate NamesRelative(ret: Option<string>, a: Anchor, stack: seq<string>) {
    && AllComponents(AnchorParts(a) + stack)
    && if ret.None? then a == Nothing && stack == []
       else AnchorParts(a) + stack != [] && ret.value == RenderRelative(AnchorParts(a) + stack)
  }

  lemma AnchorComponents(a: Anchor, stack: seq<string>)
    requires AllComponents(stack)
    ensures AllComponents(AnchorParts(a) + stack)
  {
    var full := AnchorParts(a) + stack;
    forall i | 0 <= i < |full| ensures Component(full[i]) {
      assert i >= |AnchorParts(a)| ==> full[i] == stack[i - |AnchorParts(a)|];
    }
  }

  lemma RelativeStep(ret: Option<string>, a: Anchor, stack: seq<string>, part: string)
    requires NamesRelative(ret, a, stack) && AllComponents(stack) && Component(part) && (ret.Some? ==> |ret.value| > 0)
    ensures AllComponents(Visit(stack, part))
    ensures NamesRelative(NormStep(false, ret, part), Climb(a, stack, part), Visit(stack, part))
  {
    var full := AnchorParts(a) + stack;
    AnchorComponents(Climb(a, stack, part), Visit(stack, part));
    if part == ".." {
      if ret.Some? {
        RelativeDirName(full);
        ClimbDrops(a, stack);
      }
    } else if part != "." {
      assert AnchorParts(a) + (stack + [part]) == full + [part];
      if ret.Some? {
        RelativeJoin(full, part);
      }
    }
  }

  /** Climbing drops the last component, but never the last one of all. */
  lemma ClimbDrops(a: Anchor, stack: seq<string>)
    requires AnchorParts(a) + stack != [] && AllComponents(AnchorParts(a) + stack) && AllComponents(stack)
    ensures var full, a', stack' := AnchorParts(a) + stack, Climb(a, stack, ".."), Visit(stack, "..");
            && AllComponents(AnchorParts(a') + stack') && AnchorParts(a') + stack' != []
            && RenderRelative(full[..|full| - 1]) == RenderRelative(AnchorParts(a') + stack')
  {
    var full, a', stack' := AnchorParts(a) + stack, Climb(a, stack, ".."), Visit(stack, "..");
    AnchorComponents(a', stack');
    var init := full[..|full| - 1];
    if init == [] {
      assert AnchorParts(a') + stack' == ["."];
    } else {
      assert init == AnchorParts(a') + stack';
    }
  }

  lemma {:induction false} RelativeEvaluate(parts: seq<string>, n: nat)
    requires AllComponents(parts) && n <= |parts|
    ensures AllComponents(Eval([], parts, n))
    ensures NamesRelative(NormParts(false, parts, n), AnchorAfter(parts, n), Eval([], parts, n))
  {
    if n > 0 {
      RelativeEvaluate(parts, n - 1);
      RelativeStep(NormParts(false, parts, n - 1), AnchorAfter(parts, n - 1), Eval([], parts, n - 1), parts[n - 1]);
    }
  }

  /** Normalizing a valid relative name evaluates its components on a stack, under the anchor it has climbed to. */
  lemma NormRelativeEvaluates(path: string)
    requires IsValid(path) && !IsAbs(path)
    ensures var full := AnchorParts(AnchorAfter(Parts(path), |Parts(path)|)) + EvalAll([], Parts(path));
            AllComponents(full) && NormPath(path) == RenderRelative(full)
  {
    PartsAreComponents(path);
    RelativeEvaluate(Parts(path), |Parts(path)|);
  }

  lemma {:induction false} NormPrefix(abs: bool, a: seq<string>, b: seq<string>, n: nat)
    requires n <= |a| && forall i :: 0 <= i < |a + b| ==> |(a + b)[i]| > 0
    ensures (forall i :: 0 <= i < |a| ==> |a[i]| > 0) && NormParts(abs, a + b, n) == NormParts(abs, a, n)
  {
    assert forall i :: 0 <= i < |a| ==> (a + b)[i] == a[i];
    if n > 0 {
      NormPrefix(abs, a, b, n - 1);
    }
  }

  lemma {:induction false} OnlyDots(abs: bool, parts: seq<string>, n: nat)
    requires n <= |parts| && forall i :: 0 <= i < |parts| ==> |parts[i]| > 0
    ensures NormParts(abs, parts, n).None? <==> forall i :: 0 <= i < n ==> parts[i] == "."
  {
    if n > 0 {
      OnlyDots(abs, parts, n - 1);
    }
  }

  /** One more component of a relative name; ".." takes the directory name, and is kept only where nothing came before. */
  lemma NormRelativeLaws(path: string, t: string)
    requires IsValid(path) && !IsAbs(path) && Component(t) && t != "." && t != ".."
    ensures NormPath(path + "/.") == NormPath(path)
    ensures var nothing := forall i :: 0 <= i < |Parts(path)| ==> Parts(path)[i] == ".";
            && NormPath(path + "/" + t) == (if nothing then t else NormPath(path) + "/" + t)
            && NormPath(path + "/..") == if nothing then ".." else DirName(NormPath(path))
  {
    hide NormParts, Parts, RenderRelative, Chain, DirName;
    RelativeMore(path, ".");
    RelativeMore(path, "..");
    RelativeMore(path, t);
    assert path + "/" + "." == path + "/." && path + "/" + ".." == path + "/..";
    PartsNonempty(path);
    OnlyDots(false, Parts(path), |Parts(path)|);
    NormRelativeEvaluates(path);
    RelativeEnds(AnchorParts(AnchorAfter(Parts(path), |Parts(path)|)) + EvalAll([], Parts(path)));
    assert t[0] in t;
  }

  lemma RelativeMore(path: string, t: string)
    requires IsValid(path) && !IsAbs(path) && Component(t)
    ensures !IsAbs(path + "/" + t)
    ensures forall i :: 0 <= i < |Parts(path)| ==> |Parts(path)[i]| > 0
    ensures var r := NormStep(false, NormParts(false, Parts(path), |Parts(path)|), t);
            NormPath(path + "/" + t) == if r.None? then "." else r.value
  {
    PartsOfJoin(path, t);
    PartsOfComponent(t);
    PartsNonempty(path + "/" + t);
    NormPrefix(false, Parts(path), [t], |Parts(path)|);
  }

  /** Plain components are pushed and leave the anchor alone. */
  lemma {:induction false} PlainFrom(parts: seq<string>, k: nat, n: nat)
    requires k <= n <= |parts| && forall i :: k <= i < |parts| ==> parts[i] != "." && parts[i] != ".."
    ensures Eval([], parts, n) == Eval([], parts, k) + parts[k..n]
    ensures AnchorAfter(parts, n) == AnchorAfter(parts, k)
  {
    if n > k {
      PlainFrom(parts, k, n - 1);
      assert parts[k..n] == parts[k..n - 1] + [parts[n - 1]];
    }
  }

  /** Where evaluating the components of an already normalized relative name leads. */
  lemma EvalNormalized(a: Anchor, stack: seq<string>)
    requires Plain(stack)
    ensures var full := AnchorParts(a) + stack;
            && EvalAll([], full) == stack
            && AnchorAfter(full, |full|) == if a == Dot then Nothing else a
  {
    if a == Nothing {
      assert [] + stack == stack && stack[0..|stack|] == stack;
      PlainFrom(stack, 0, |stack|);
    } else {
      EvalAnchored(if a == Dot then "." else "..", stack);
    }
  }

  lemma EvalAnchored(first: string, stack: seq<string>)
    requires Plain(stack) && (first == "." || first == "..")
    ensures EvalAll([], [first] + stack) == stack
    ensures AnchorAfter([first] + stack, |stack| + 1) == if first == "." then Nothing else DotDot
  {
    var full := [first] + stack;
    assert full[1..|full|] == stack;
    assert full[0] == first && Eval([], full, 1) == [];
    PlainFrom(full, 1, |full|);
  }

  lemma DifferentParts(p: seq<string>, q: seq<string>)
    requires AllComponents(p) && AllComponents(q) && p != [] && q != [] && p != q
    ensures RenderRelative(p) != RenderRelative(q)
  {
    RelativeParts(p);
    RelativeParts(q);
  }

  /**
   * Normalizing a valid relative name twice is normalizing it once if and only if the name does not climb back to its
   * start and then go down again.
   */
  lemma NormRelativeIdempotent(path: string)
    requires IsValid(path) && !IsAbs(path)
    ensures NormPath(NormPath(path)) == NormPath(path) <==>
              !(AnchorAfter(Parts(path), |Parts(path)|) == Dot && EvalAll([], Parts(path)) != [])
  {
    var a, stack := AnchorAfter(Parts(path), |Parts(path)|), EvalAll([], Parts(path));
    NormRelativeEvaluates(path);
    PartsAreComponents(path);
    EvalIsPlain([], Parts(path), |Parts(path)|);
    NormAgain(a, stack);
  }

  lemma NormAgain(a: Anchor, stack: seq<string>)
    requires Plain(stack) && AllComponents(AnchorParts(a) + stack)
    ensures var name := RenderRelative(AnchorParts(a) + stack); NormPath(name) == name <==> !(a == Dot && stack != [])
  {
    var full := AnchorParts(a) + stack;
    if full == [] {
      PartsOfComponent(".");
      assert NormParts(false, ["."], 1) == NormStep(false, NormParts(false, ["."], 0), ".") == None;
    } else {
      RelativeEnds(full);
      RelativeParts(full);
      NormRelativeEvaluates(RenderRelative(full));
      EvalNormalized(a, stack);
      if a == Dot {
        assert [] + stack == stack;
        if stack != [] {
          DifferentParts(stack, full);
        }
      }
    }
  }

  /** A relative name whose normal form is not normal: climbing back to the start leaves "./" in front. */
  lemma NotIdempotent()
    ensures NormPath("a/../b") == "./b" && NormPath("./b") != "./b"
  {
    hide NormPath;
    ExampleNormal();
    ExampleAgain();
  }

  lemma ExampleNormal()
    ensures NormPath("a/../b") == "./b"
  {
    hide NormPath, Parts, EvalAll, RenderRelative;
    ExampleParts();
    ExampleEval();
    NormRelativeEvaluates("a/../b");
    ExampleName();
  }

  lemma ExampleAgain()
    ensures NormPath("./b") != "./b"
  {
    hide NormPath, RenderRelative;
    ExampleName();
    NormAgain(Dot, ["b"]);
  }

  lemma ExampleParts()
    ensures Parts("a/../b") == ["a", "..", "b"]
  {
    PartsOfComponent("a");
    ExampleTail();
    PartsOfJoin("a", "../b");
    assert "a" + SLASH + "../b" == "a/../b";
  }

  lemma ExampleEval()
    ensures EvalAll([], ["a", "..", "b"]) == ["b"] && AnchorAfter(["a", "..", "b"], 3) == Dot
  {
    var parts := ["a", "..", "b"];
    assert Eval([], parts, 1) == ["a"] && AnchorAfter(parts, 1) == Nothing;
    assert Eval([], parts, 2) == [] && AnchorAfter(parts, 2) == Dot;
  }

  lemma ExampleTail()
    ensures Parts("../b") == ["..", "b"]
  {
    PartsOfComponent("..");
    PartsOfComponent("b");
    PartsOfJoin("..", "b");
    assert ".." + SLASH + "b" == "../b";
  }

  lemma ExampleName()
    ensures RenderRelative([".", "b"]) == "./b" && AnchorParts(Dot) + ["b"] == [".", "b"]
  {
    assert [".", "b"][..1] == ["."];
    assert RenderRelative(["."]) == ".";
  }

  // ---- what a normalized relative name means ----

  /** How often the first n components climb above where they start. */
  function Climbs(parts: seq<string>, n: nat): nat
    requires n <= |parts|
  {
    if n == 0 then 0
    else Climbs(parts, n - 1) + if parts[n - 1] == ".." && Eval([], parts, n - 1) == [] then 1 else 0
  }

  /** The directory c levels up, the root at most. */
  function Above(cwd: seq<string>, c: nat): seq<string> {
    if c <= |cwd| then cwd[..|cwd| - c] else []
  }

  /** In a working directory a name leads up as often as it climbs, and then down its own stack. */
  lemma {:induction false} EvalAbove(cwd: seq<string>, parts: seq<string>, n: nat)
    requires n <= |parts|
    ensures Eval(cwd, parts, n) == Above(cwd, Climbs(parts, n)) + Eval([], parts, n)
  {
    if n > 0 {
      EvalAbove(cwd, parts, n - 1);
      VisitAbove(cwd, Climbs(parts, n - 1), Eval([], parts, n - 1), parts[n - 1]);
    }
  }

  lemma VisitAbove(cwd: seq<string>, c: nat, stack: seq<string>, part: string)
    ensures Visit(Above(cwd, c) + stack, part) ==
            Above(cwd, c + if part == ".." && stack == [] then 1 else 0) + Visit(stack, part)
  {
    var above := Above(cwd, c);
    if part == ".." {
      if stack == [] {
        assert above + [] == above;
      } else {
        assert (above + stack)[..|above + stack| - 1] == above + stack[..|stack| - 1];
      }
    } else if part != "." {
      assert (above + stack) + [part] == above + (stack + [part]);
    }
  }

  /** The anchor tells no climb from one, and forgets further ones. */
  lemma {:induction false} AnchorCounts(parts: seq<string>, n: nat)
    requires n <= |parts|
    ensures AnchorAfter(parts, n) == Nothing ==> Climbs(parts, n) == 0
    ensures AnchorAfter(parts, n) == DotDot ==> Climbs(parts, n) == 1
  {
    if n > 0 {
      AnchorCounts(parts, n - 1);
    }
  }

  /** What the normal form of a relative name means in a working directory. */
  lemma NormalMeans(cwd: seq<string>, a: Anchor, stack: seq<string>)
    requires Plain(cwd) && Plain(stack) && AllComponents(AnchorParts(a) + stack)
    ensures AbsPath(Render(cwd), RenderRelative(AnchorParts(a) + stack)) ==
            Render(Above(cwd, if a == DotDot then 1 else 0) + stack)
  {
    hide AbsPath, Render, RenderRelative;
    var full := AnchorParts(a) + stack;
    RelativeEnds(full);
    AbsPathEvaluates(cwd, RenderRelative(full));
    if full == [] {
      DotMeans(cwd);
    } else {
      RelativeParts(full);
      EvalNormalized(a, stack);
      AnchorCounts(full, |full|);
      EvalAbove(cwd, full, |full|);
    }
  }

  lemma DotMeans(cwd: seq<string>)
    ensures RenderRelative([]) == "." && EvalAll(cwd, Parts(".")) == Above(cwd, 0) + []
  {
    PartsOfComponent(".");
    assert Eval(cwd, ["."], 1) == Visit(Eval(cwd, ["."], 0), ".");
  }

  lemma RenderInjective(s: seq<string>, t: seq<string>)
    requires AllComponents(s) && AllComponents(t)
    ensures Render(s) == Render(t) <==> s == t
  {
    RenderParts(s);
    RenderParts(t);
  }

  /**
   * Normalizing a valid relative name keeps what it means in a working directory if and only if that is the root, or the
   * name does not climb above its start, or it does so once and has not come back to its start by then.
   */
  lemma NormRelativeMeans(cwd: seq<string>, path: string)
    requires Plain(cwd) && IsValid(path) && !IsAbs(path)
    ensures AbsPath(Render(cwd), NormPath(path)) == AbsPath(Render(cwd), path) <==>
              cwd == [] || Climbs(Parts(path), |Parts(path)|) == 0 || AnchorAfter(Parts(path), |Parts(path)|) == DotDot
  {
    hide AbsPath, NormPath, Render, RenderRelative;
    var parts := Parts(path);
    var a, stack, c := AnchorAfter(parts, |parts|), EvalAll([], parts), Climbs(parts, |parts|);
    NormRelativeEvaluates(path);
    PartsAreComponents(path);
    EvalIsPlain([], parts, |parts|);
    NormalMeans(cwd, a, stack);
    AbsPathEvaluates(cwd, path);
    EvalAbove(cwd, parts, |parts|);
    AnchorCounts(parts, |parts|);
    var c' := if a == DotDot then 1 else 0;
    RenderInjective(Above(cwd, c') + stack, Above(cwd, c) + stack);
    assert Above(cwd, c') + stack == Above(cwd, c) + stack ==> |Above(cwd, c')| == |Above(cwd, c)|;
  }

  /** From /a/b the name "../.." means the root, and its normal form "." means /a/b. */
  lemma LostClimb()
    ensures NormPath("../..") == "."
    ensures AbsPath(Render(["a", "b"]), "../..") == Render([]) && AbsPath(Render(["a", "b"]), ".") == Render(["a", "b"])
  {
    hide AbsPath, NormPath, Render;
    TwiceUp();
    NormRelativeEvaluates("../..");
    assert Plain(["a", "b"]);
    AbsPathEvaluates(["a", "b"], "../..");
    AbsPathEvaluates(["a", "b"], ".");
    DotMeans(["a", "b"]);
    assert Above(["a", "b"], 0) + [] == ["a", "b"];
  }

  lemma TwiceUp()
    ensures Parts("../..") == ["..", ".."]
    ensures EvalAll([], ["..", ".."]) == [] && EvalAll(["a", "b"], ["..", ".."]) == []
    ensures AnchorAfter(["..", ".."], 2) == Dot && AnchorParts(Dot) + [] == ["."]
  {
    PartsOfComponent("..");
    PartsOfJoin("..", "..");
    assert ".." + SLASH + ".." == "../..";
    var parts := ["..", ".."];
    assert Eval([], parts, 1) == [] && AnchorAfter(parts, 1) == DotDot;
    assert Eval(["a", "b"], parts, 1) == ["a"];
  }
}
