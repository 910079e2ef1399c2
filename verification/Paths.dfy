/** Path canonicalisation and the clamp that keeps a path under a jail's root. */
module Paths {

  const MAX_DEPTH: nat := 128

  const CANON_SIZE: nat := 512

  const TMP_SIZE: nat := 768

  // ---- components ----

  /** Number of leading characters that are not slashes. */
  function Span(s: string): (n: nat)
    ensures n <= |s| && (forall i :: 0 <= i < n ==> s[i] != '/') && (n < |s| ==> s[n] == '/')
  {
    if s == [] || s[0] == '/' then 0 else 1 + Span(s[1..])
  }

  /** The components of a path: what stands between slashes, empty ones left out. */
  function Components(s: string): seq<string>
    decreases |s|
  {
    if s == [] then []
    else if s[0] == '/' then Components(s[1..])
    else [s[..Span(s)]] + Components(s[Span(s)..])
  }

  /** A name that means itself. */
  predicate Plain(c: string) {
    c != [] && '/' !in c && c != "." && c != ".."
  }

  predicate AllPlain(stack: seq<string>) {
    forall i :: 0 <= i < |stack| ==> Plain(stack[i])
  }

  /** The stack as a path: a slash before each component. */
  function Render(stack: seq<string>): string {
    if stack == [] then "" else Render(stack[..|stack| - 1]) + "/" + stack[|stack| - 1]
  }

  function RootIfEmpty(s: string): string {
    if s == [] then "/" else s
  }

  lemma {:induction false} SpanPrefix(a: string, b: string)
    ensures Span(a + "/" + b) == Span(a)
  {
    var s := a + "/" + b;
    if a != [] && a[0] != '/' {
      assert s[1..] == a[1..] + "/" + b;
      SpanPrefix(a[1..], b);
    }
  }

  lemma NameFirst(a: string, b: string, s: string, n: nat)
    requires s == a + "/" + b && a != [] && a[0] != '/' && n == Span(a)
    ensures 0 < n <= |a| && Components(s) == [a[..n]] + Components(s[n..]) && s[n..] == a[n..] + "/" + b
  {
    SpanPrefix(a, b);
    assert s[..n] == a[..n];
  }

  lemma {:induction false} ComponentsConcat(a: string, b: string)
    ensures Components(a + "/" + b) == Components(a) + Components(b)
    decreases |a|
  {
    var s := a + "/" + b;
    if a == [] {
      assert s[1..] == b;
    } else if a[0] == '/' {
      assert s[1..] == a[1..] + "/" + b;
      ComponentsConcat(a[1..], b);
    } else {
      var n := Span(a);
      NameFirst(a, b, s, n);
      ComponentsConcat(a[n..], b);
    }
  }

  lemma {:induction false} SpanAll(c: string)
    requires '/' !in c
    ensures Span(c) == |c|
  {}

  lemma OneComponent(c: string)
    requires c != [] && '/' !in c
    ensures Components(c) == [c]
  {
    SpanAll(c);
    assert c[0] in c && c[..|c|] == c && c[|c|..] == [];
  }

  /** Rendering and splitting are inverse on stacks of plain names. */
  lemma {:induction false} ComponentsOfRender(stack: seq<string>)
    requires AllPlain(stack)
    ensures Components(Render(stack)) == stack
  {
    if stack != [] {
      var n := |stack| - 1;
      ComponentsOfRender(stack[..n]);
      ComponentsConcat(Render(stack[..n]), stack[n]);
      OneComponent(stack[n]);
      assert stack[..n] + [stack[n]] == stack;
    }
  }

  // ---- the meaning of a path ----

  function Pop(stack: seq<string>): seq<string> {
    if stack == [] then [] else stack[..|stack| - 1]
  }

  /** Walking the components: "." stays, ".." goes up (never above the top), a name goes down. */
  function Resolve(comps: seq<string>, stack: seq<string>): seq<string> {
    if comps == [] then stack
    else if comps[0] == "." then Resolve(comps[1..], stack)
    else if comps[0] == ".." then Resolve(comps[1..], Pop(stack))
    else Resolve(comps[1..], stack + [comps[0]])
  }

  predicate TooDeep(stack: seq<string>, c: string, sz: nat) {
    |stack| >= MAX_DEPTH || |Render(stack)| + 1 + |c| >= sz
  }

  /** The same with the code's limits: it stops at the first name that does not fit. */
  function Limited(comps: seq<string>, stack: seq<string>, sz: nat): seq<string> {
    if comps == [] then stack
    else if comps[0] == "." then Limited(comps[1..], stack, sz)
    else if comps[0] == ".." then Limited(comps[1..], Pop(stack), sz)
    else if TooDeep(stack, comps[0], sz) then stack
    else Limited(comps[1..], stack + [comps[0]], sz)
  }

  predicate Overflows(comps: seq<string>, stack: seq<string>, sz: nat) {
    if comps == [] then false
    else if comps[0] == "." then Overflows(comps[1..], stack, sz)
    else if comps[0] == ".." then Overflows(comps[1..], Pop(stack), sz)
    else TooDeep(stack, comps[0], sz) || Overflows(comps[1..], stack + [comps[0]], sz)
  }

  function Canon(s: string, sz: nat): string {
    RootIfEmpty(Render(Limited(Components(s), [], sz)))
  }

  /** Within the limits, the code computes the meaning of the path. */
  lemma {:induction false} LimitedIsResolve(comps: seq<string>, stack: seq<string>, sz: nat)
    requires !Overflows(comps, stack, sz)
    ensures Limited(comps, stack, sz) == Resolve(comps, stack)
  {
    if comps != [] {
      if comps[0] == "." { LimitedIsResolve(comps[1..], stack, sz); }
      else if comps[0] == ".." { LimitedIsResolve(comps[1..], Pop(stack), sz); }
      else { LimitedIsResolve(comps[1..], stack + [comps[0]], sz); }
    }
  }

  /** A stack the code can be in. */
  predicate Good(stack: seq<string>, sz: nat) {
    AllPlain(stack) && |stack| <= MAX_DEPTH && (stack != [] ==> |Render(stack)| < sz)
  }

  predicate Names(comps: seq<string>) {
    forall i :: 0 <= i < |comps| ==> comps[i] != [] && '/' !in comps[i]
  }

  lemma {:induction false} ComponentsAreNames(s: string)
    ensures Names(Components(s))
    decreases |s|
  {
    if s != [] {
      if s[0] == '/' { ComponentsAreNames(s[1..]); } else { ComponentsAreNames(s[Span(s)..]); }
    }
  }

  lemma {:induction false} RenderPrefix(stack: seq<string>, n: nat)
    requires n <= |stack|
    ensures |Render(stack[..n])| <= |Render(stack)|
    ensures n < |stack| ==> |Render(stack[..n])| + 1 + |stack[n]| <= |Render(stack)|
  {
    if n < |stack| {
      var k := |stack| - 1;
      if n < k {
        RenderPrefix(stack[..k], n);
        assert stack[..k][..n] == stack[..n];
      }
    } else {
      assert stack[..n] == stack;
    }
  }

  lemma PopGood(stack: seq<string>, sz: nat)
    requires Good(stack, sz)
    ensures Good(Pop(stack), sz)
  {}

  lemma PushGood(stack: seq<string>, c: string, sz: nat)
    requires Good(stack, sz) && Plain(c) && !TooDeep(stack, c, sz)
    ensures Good(stack + [c], sz)
  {}

  lemma {:induction false} LimitedGood(comps: seq<string>, stack: seq<string>, sz: nat)
    requires Names(comps) && Good(stack, sz)
    ensures Good(Limited(comps, stack, sz), sz)
  {
    if comps != [] {
      if comps[0] == "." { LimitedGood(comps[1..], stack, sz); }
      else if comps[0] == ".." { PopGood(stack, sz); LimitedGood(comps[1..], Pop(stack), sz); }
      else if !TooDeep(stack, comps[0], sz) { PushGood(stack, comps[0], sz); LimitedGood(comps[1..], stack + [comps[0]], sz); }
    }
  }

  /** A stack the code can be in, walked again from part way, comes out the same and fits. */
  lemma {:induction false} Again(stack: seq<string>, n: nat, rest: seq<string>, sz: nat)
    requires Good(stack, sz) && n <= |stack|
    ensures Limited(stack[n..] + rest, stack[..n], sz) == Limited(rest, stack, sz)
    ensures Overflows(stack[n..] + rest, stack[..n], sz) == Overflows(rest, stack, sz)
    decreases |stack| - n
  {
    if n == |stack| {
      assert stack[n..] + rest == rest && stack[..n] == stack;
    } else {
      var comps := stack[n..] + rest;
      assert Plain(stack[n]) && comps[0] == stack[n] && comps[1..] == stack[n + 1..] + rest;
      RenderPrefix(stack, n);
      assert stack[..n] + [stack[n]] == stack[..n + 1];
      Again(stack, n + 1, rest, sz);
    }
  }

  lemma {:induction false} LimitedConcat(a: seq<string>, b: seq<string>, stack: seq<string>, sz: nat)
    requires !Overflows(a, stack, sz)
    ensures Limited(a + b, stack, sz) == Limited(b, Limited(a, stack, sz), sz)
  {
    if a == [] {
      assert a + b == b;
    } else {
      assert (a + b)[1..] == a[1..] + b;
      if a[0] == "." { LimitedConcat(a[1..], b, stack, sz); }
      else if a[0] == ".." { LimitedConcat(a[1..], b, Pop(stack), sz); }
      else { LimitedConcat(a[1..], b, stack + [a[0]], sz); }
    }
  }

  lemma {:induction false} LimitedStops(a: seq<string>, b: seq<string>, stack: seq<string>, sz: nat)
    requires Overflows(a, stack, sz)
    ensures Limited(a + b, stack, sz) == Limited(a, stack, sz)
  {
    assert (a + b)[1..] == a[1..] + b;
    if a[0] == "." { LimitedStops(a[1..], b, stack, sz); }
    else if a[0] == ".." { LimitedStops(a[1..], b, Pop(stack), sz); }
    else if !TooDeep(stack, a[0], sz) { LimitedStops(a[1..], b, stack + [a[0]], sz); }
  }

  // ---- the laws ----

  lemma {:induction false} RenderSlash(stack: seq<string>)
    requires stack != []
    ensures Render(stack) != [] && Render(stack)[0] == '/'
  {
    if |stack| > 1 { RenderSlash(stack[..|stack| - 1]); } else { assert stack[..0] == []; }
  }

  /** The output has only plain components: none empty, none "." or "..". */
  lemma CanonPlain(s: string, sz: nat)
    ensures AllPlain(Components(Canon(s, sz))) && Components(Canon(s, sz)) == Limited(Components(s), [], sz)
    ensures Canon(s, sz)[0] == '/' && (sz >= 2 ==> |Canon(s, sz)| < sz)
  {
    var stack := Limited(Components(s), [], sz);
    ComponentsAreNames(s);
    LimitedGood(Components(s), [], sz);
    ComponentsOfRender(stack);
    if stack == [] { assert Components("/") == []; } else { RenderSlash(stack); }
  }

  /** Canonical paths are fixed points, whatever the input was and whether it fitted or not. */
  lemma CanonIdempotent(s: string, sz: nat)
    ensures Canon(Canon(s, sz), sz) == Canon(s, sz)
  {
    var stack := Limited(Components(s), [], sz);
    CanonPlain(s, sz);
    ComponentsAreNames(s);
    LimitedGood(Components(s), [], sz);
    Again(stack, 0, [], sz);
    assert stack[0..] + [] == stack && stack[..0] == [];
  }

  /** Canonicalising a prefix first walks on from where the prefix leads. */
  lemma CanonThen(a: string, b: string, sz: nat)
    ensures Limited(Components(Canon(a, sz) + "/" + b), [], sz)
            == Limited(Components(b), Limited(Components(a), [], sz), sz)
  {
    var stack := Limited(Components(a), [], sz);
    CanonPlain(a, sz);
    ComponentsAreNames(a);
    LimitedGood(Components(a), [], sz);
    ComponentsConcat(Canon(a, sz), b);
    Again(stack, 0, Components(b), sz);
    assert stack[0..] + Components(b) == stack + Components(b) && stack[..0] == [];
  }

  /** Canonicalising a prefix first changes nothing, provided the prefix fits ... */
  lemma CanonOfPrefix(a: string, b: string, sz: nat)
    requires !Overflows(Components(a), [], sz)
    ensures Canon(Canon(a, sz) + "/" + b, sz) == Canon(a + "/" + b, sz)
  {
    CanonThen(a, b, sz);
    ComponentsConcat(a, b);
    LimitedConcat(Components(a), Components(b), [], sz);
  }

  /** ... and if it does not fit, exactly when the rest leads nowhere from what is left of the prefix. The condition a
      caller can check is that of `CanonOfPrefix`; the second disjunct only says what is left when it fails. */
  lemma PrefixLaw(a: string, b: string, sz: nat)
    ensures Canon(Canon(a, sz) + "/" + b, sz) == Canon(a + "/" + b, sz)
            <==> !Overflows(Components(a), [], sz)
                 || Limited(Components(b), Limited(Components(a), [], sz), sz) == Limited(Components(a), [], sz)
  {
    if !Overflows(Components(a), [], sz) {
      CanonOfPrefix(a, b, sz);
    } else {
      CanonThen(a, b, sz);
      ComponentsConcat(a, b);
      LimitedStops(Components(a), Components(b), [], sz);
      CanonPlain(Canon(a, sz) + "/" + b, sz);
      CanonPlain(a + "/" + b, sz);
    }
  }

  lemma {:induction false} LettersLength(n: nat)
    ensures |Render(seq(n, _ => "x"))| == 2 * n
  {
    if n > 0 {
      LettersLength(n - 1);
      assert seq(n, _ => "x")[..n - 1] == seq(n - 1, _ => "x");
    }
  }

  /** Without the proviso the law fails, with the buffers that callers pass: the last of 129 names does not fit, and the
      ".." that follows takes effect only on one side. */
  lemma PrefixMustFit()
    ensures var a := Render(seq(MAX_DEPTH + 1, _ => "x"));
            Overflows(Components(a), [], CANON_SIZE)
            && Canon(Canon(a, CANON_SIZE) + "/" + "..", CANON_SIZE) != Canon(a + "/" + "..", CANON_SIZE)
  {
    var names, kept := seq(MAX_DEPTH + 1, _ => "x"), seq(MAX_DEPTH, _ => "x");
    ComponentsOfRender(names);
    LettersLength(MAX_DEPTH);
    Again(kept, 0, ["x"], CANON_SIZE);
    assert kept[0..] + ["x"] == names && kept[..0] == [];
    OneComponent("..");
    assert [".."][1..] == [];
    PrefixLaw(Render(names), "..", CANON_SIZE);
  }

  // ---- the code ----

  method SkipSlashes(input: string, from: nat) returns (p: nat)
    requires from <= |input|
    ensures from <= p <= |input| && (p < |input| ==> input[p] != '/')
    ensures Components(input[p..]) == Components(input[from..])
  {
    p := from;
    while p < |input| && input[p] == '/'
      invariant from <= p <= |input| && Components(input[p..]) == Components(input[from..])
    {
      assert input[p..][1..] == input[p + 1..];
      p := p + 1;
    }
  }

  lemma {:induction false} SpanIs(s: string, n: nat)
    requires n <= |s| && (forall i :: 0 <= i < n ==> s[i] != '/') && (n < |s| ==> s[n] == '/')
    ensures Span(s) == n
  {}

  method ComponentEnd(input: string, from: nat) returns (p: nat)
    requires from < |input| && input[from] != '/'
    ensures from < p <= |input| && Components(input[from..]) == [input[from..p]] + Components(input[p..])
  {
    p := from;
    while p < |input| && input[p] != '/'
      invariant from <= p <= |input| && forall i :: from <= i < p ==> input[i] != '/'
    {
      p := p + 1;
    }
    var s := input[from..];
    SpanIs(s, p - from);
    assert s[..p - from] == input[from..p] && s[p - from..] == input[p..];
  }

  /** Where each component of the stack starts in the output. */
  predicate StartsOk(starts: seq<nat>, stack: seq<string>) {
    |starts| == |stack| && forall i :: 0 <= i < |stack| ==> starts[i] == |Render(stack[..i])|
  }

  lemma StartsPush(starts: seq<nat>, stack: seq<string>, c: string)
    requires StartsOk(starts, stack)
    ensures StartsOk(starts + [|Render(stack)|], stack + [c]) && Render(stack + [c]) == Render(stack) + "/" + c
  {
    var after := stack + [c];
    assert after[..|stack|] == stack;
    forall i | 0 <= i < |after| ensures (starts + [|Render(stack)|])[i] == |Render(after[..i])| {
      if i < |stack| { assert after[..i] == stack[..i]; }
    }
  }

  lemma StartsPop(starts: seq<nat>, stack: seq<string>)
    requires StartsOk(starts, stack) && stack != []
    ensures var n := |stack| - 1;
            && StartsOk(starts[..n], stack[..n]) && starts[n] <= |Render(stack)|
            && Render(stack)[..starts[n]] == Render(stack[..n])
  {
    var n := |stack| - 1;
    assert Render(stack) == Render(stack[..n]) + "/" + stack[n];
    forall i | 0 <= i < n ensures starts[..n][i] == |Render(stack[..n][..i])| { assert stack[..n][..i] == stack[..i]; }
  }

  lemma LimitedFirst(c: string, rest: seq<string>, stack: seq<string>, sz: nat)
    ensures Limited([c] + rest, stack, sz)
            == if c == "." then Limited(rest, stack, sz)
               else if c == ".." then Limited(rest, Pop(stack), sz)
               else if TooDeep(stack, c, sz) then stack
               else Limited(rest, stack + [c], sz)
  {
    assert ([c] + rest)[1..] == rest;
  }

  /** `path_canon`. `out` holds the bytes written so far, `starts` where each component began. */
  method PathCanon(input: string, sz: nat) returns (out: string)
    requires sz >= 2
    ensures out == Canon(input, sz)
  {
    var starts: seq<nat> := [];
    ghost var stack: seq<string> := [];
    var p := 0;
    out := "";
    assert input[0..] == input;
    while p < |input|
      invariant p <= |input| && out == Render(stack) && StartsOk(starts, stack)
      invariant Limited(Components(input[p..]), stack, sz) == Limited(Components(input), [], sz)
      decreases |input| - p
    {
      p := SkipSlashes(input, p);
      if p == |input| { break; }
      var s := p;
      p := ComponentEnd(input, s);
      var c := input[s..p];
      LimitedFirst(c, Components(input[p..]), stack, sz);
      if c == "." { continue; }
      if c == ".." {
        if |starts| > 0 {
          StartsPop(starts, stack);
          out := out[..starts[|starts| - 1]];
          starts, stack := starts[..|starts| - 1], stack[..|stack| - 1];
        }
        continue;
      }
      if |starts| >= MAX_DEPTH || |out| + 1 + |c| >= sz {
        out := RootIfEmpty(out);
        return;
      }
      StartsPush(starts, stack, c);
      starts, stack := starts + [|out|], stack + [c];
      out := out + "/" + c;
    }
    assert input[|input|..] == [];
    out := RootIfEmpty(out);
  }

  // ---- the clamp ----

  predicate UnderRoot(path: string, root: string) {
    root <= path && (|path| == |root| || path[|root|] == '/')
  }

  function Truncate(s: string, n: nat): string {
    if |s| <= n then s else s[..n]
  }

  /** What the clamp makes of a path before it is cut to the buffer. */
  function Clamped(path: string, root: string): string {
    var sub := if UnderRoot(path, root) then path[|root|..] else path;
    var canon := Canon(sub, CANON_SIZE);
    if canon == "/" then root else root + canon
  }

  /** How much of the clamped path the buffers keep. */
  function Room(sz: nat): nat
    requires sz >= 1
  {
    if sz < TMP_SIZE then sz - 1 else TMP_SIZE - 1
  }

  /** What the caller gets: the clamped path, cut to the buffers. */
  function Cut(path: string, root: string, sz: nat): (r: string)
    requires sz >= 1
    ensures r == Truncate(Clamped(path, root), Room(sz))
  {
    Truncate(Truncate(Clamped(path, root), TMP_SIZE - 1), sz - 1)
  }

  /** `jail_canon_clamp`. */
  method Clamp(path: string, sz: nat, root: string) returns (r: string)
    requires sz >= 1
    ensures root == "" ==> r == path
    ensures root != "" ==> r == Cut(path, root, sz)
  {
    if root == "" { return path; }
    var sub := if UnderRoot(path, root) then path[|root|..] else path;
    var canon := PathCanon(sub, CANON_SIZE);
    var tmp := if canon == "/" then root else root + canon;
    r := Truncate(Truncate(tmp, TMP_SIZE - 1), sz - 1);
  }

  /** Every path is clamped to the root itself or to a path below it, with only plain components after the root;
      clamping again changes nothing. */
  lemma ClampStaysUnder(path: string, root: string)
    requires root != ""
    ensures UnderRoot(Clamped(path, root), root)
    ensures AllPlain(Components(Clamped(path, root)[|root|..]))
    ensures Clamped(Clamped(path, root), root) == Clamped(path, root)
  {
    var sub := if UnderRoot(path, root) then path[|root|..] else path;
    var canon := Canon(sub, CANON_SIZE);
    var r := Clamped(path, root);
    CanonPlain(sub, CANON_SIZE);
    CanonIdempotent(sub, CANON_SIZE);
    if canon == "/" {
      assert r[|root|..] == "";
      assert Canon("", CANON_SIZE) == "/";
    } else {
      assert r[|root|..] == canon;
    }
  }

  /** The buffer is large enough: nothing is cut off. */
  lemma ClampFits(path: string, root: string, sz: nat)
    requires root != "" && sz >= 1
    ensures |Clamped(path, root)| <= |root| + CANON_SIZE - 1
    ensures |Clamped(path, root)| < sz && |Clamped(path, root)| < TMP_SIZE ==>
              Cut(path, root, sz) == Clamped(path, root)
  {
    CanonPlain(if UnderRoot(path, root) then path[|root|..] else path, CANON_SIZE);
  }

  lemma {:induction false} ResolveConcat(a: seq<string>, b: seq<string>, stack: seq<string>)
    ensures Resolve(a + b, stack) == Resolve(b, Resolve(a, stack))
  {
    if a == [] {
      assert a + b == b;
    } else {
      assert (a + b)[1..] == a[1..] + b;
      if a[0] == "." { ResolveConcat(a[1..], b, stack); }
      else if a[0] == ".." { ResolveConcat(a[1..], b, Pop(stack)); }
      else { ResolveConcat(a[1..], b, stack + [a[0]]); }
    }
  }

  lemma {:induction false} ResolvePlain(comps: seq<string>, stack: seq<string>)
    requires AllPlain(comps)
    ensures Resolve(comps, stack) == stack + comps
  {
    if comps != [] {
      assert Plain(comps[0]) && stack + [comps[0]] + comps[1..] == stack + comps;
      ResolvePlain(comps[1..], stack + [comps[0]]);
    }
  }

  /** A rendered stack cut after `n` characters: some of its names, and perhaps the beginning of the next one. */
  lemma {:induction false} CutRender(stack: seq<string>, n: nat) returns (m: nat, part: string)
    requires AllPlain(stack) && n <= |Render(stack)|
    ensures m <= |stack| && (part != "" ==> m < |stack| && part <= stack[m])
    ensures Components(Render(stack)[..n]) == if part == "" then stack[..m] else stack[..m] + [part]
    ensures m == 0 && part != "" ==> Render(stack)[..n] == "/" + part
  {
    if stack == [] {
      return 0, "";
    }
    var k := |stack| - 1;
    var front, name := Render(stack[..k]), stack[k];
    if n <= |front| {
      assert Render(stack)[..n] == front[..n];
      m, part := CutRender(stack[..k], n);
      assert stack[..k][..m] == stack[..m];
    } else {
      m, part := k, name[..n - |front| - 1];
      assert Render(stack)[..n] == front + "/" + part;
      ComponentsConcat(front, part);
      ComponentsOfRender(stack[..k]);
      if part != "" { OneComponent(part); }
      assert k == 0 ==> front == "";
    }
  }

  lemma DotsOnly()
    ensures Components("/..") == [".."]
  {
    ComponentsConcat("", "..");
    OneComponent("..");
    assert "" + "/" + ".." == "/..";
  }

  /** What lies after the root leads on from where the root is. */
  lemma AfterRoot(root: string, rest: string)
    requires rest != "" ==> rest[0] == '/'
    ensures Resolve(Components(root + rest), []) == Resolve(Components(rest), Resolve(Components(root), []))
  {
    if rest == "" {
      assert root + rest == root;
    } else {
      assert rest == "/" + rest[1..] && root + rest == root + "/" + rest[1..];
      ComponentsConcat(root, rest[1..]);
      ResolveConcat(Components(root), Components(rest[1..]), []);
    }
  }

  /** The names of a cut stack lead out of where they start exactly when all that is left is "..". */
  lemma CutResolves(stack: seq<string>, n: nat, base: seq<string>)
    requires AllPlain(stack) && n <= |Render(stack)|
    ensures base <= Resolve(Components(Render(stack)[..n]), base) <==> base == [] || Render(stack)[..n] != "/.."
  {
    DotsOnly();
    var m, part := CutRender(stack, n);
    if part == "" {
      ResolvePlain(stack[..m], base);
      if m > 0 { assert Plain(stack[0]); }
    } else {
      ResolveConcat(stack[..m], [part], base);
      ResolvePlain(stack[..m], base);
      var there := base + stack[..m];
      assert [part][1..] == [];
      assert Resolve([part], there) == if part == "." then there else if part == ".." then Pop(there) else there + [part];
      assert |stack[..m] + [part]| == m + 1 && (stack[..m] + [part])[m] == part;
    }
  }

  lemma NotDots(stack: seq<string>)
    requires AllPlain(stack)
    ensures Render(stack) != "/.."
  {
    ComponentsOfRender(stack);
    DotsOnly();
    if stack != [] { assert Plain(stack[0]); }
  }

  /** How much of what follows the root is kept. */
  lemma Kept(root: string, after: string, n: nat) returns (k: nat)
    requires |root| <= n
    ensures k == (if |root| + |after| <= n then |after| else n - |root|) && k <= |after|
    ensures Truncate(root + after, n) == root + after[..k]
    ensures after == "" || after[0] == '/' ==> UnderRoot(root + after[..k], root)
  {
    k := if |root| + |after| <= n then |after| else n - |root|;
    assert (root + after)[..|root| + k] == root + after[..k];
  }

  lemma KeptDots(root: string, after: string, n: nat, k: nat)
    requires |root| <= n && k == (if |root| + |after| <= n then |after| else n - |root|) && after != "/.."
    ensures after[..k] == "/.." <==> n == |root| + 3 && "/.." <= after
  {
    if "/.." <= after { assert after[..3] == "/.."; }
    if k == |after| { assert after[..k] == after; }
  }

  lemma CutUnder(root: string, stack: seq<string>, n: nat)
    requires AllPlain(stack) && |root| <= n
    ensures var base, cut := Resolve(Components(root), []), Truncate(root + Render(stack), n);
            && UnderRoot(cut, root)
            && (base <= Resolve(Components(cut), []) <==> base == [] || n != |root| + 3 || !("/.." <= Render(stack)))
  {
    var k := Kept(root, Render(stack), n);
    var rest := Render(stack)[..k];
    if stack != [] { RenderSlash(stack); }
    AfterRoot(root, rest);
    CutResolves(stack, k, Resolve(Components(root), []));
    NotDots(stack);
    KeptDots(root, Render(stack), n, k);
  }

  lemma ClampedRender(path: string, root: string, stack: seq<string>)
    requires stack == Limited(Components(if UnderRoot(path, root) then path[|root|..] else path), [], CANON_SIZE)
    requires AllPlain(stack)
    ensures Clamped(path, root) == root + Render(stack) && Clamped(path, root)[|root|..] == Render(stack)
  {
    ComponentsOfRender(stack);
    assert Components("/") == [];
  }

  /** Even when it is cut, what is left stays at or below the root, as a string if the root itself fits. As a path it
      does exactly unless the buffers keep three characters after the root and those are "/..": a name that begins with
      two dots, cut after them. Four characters are always enough. */
  lemma CutStaysUnder(path: string, root: string, sz: nat)
    requires root != "" && |root| < sz && |root| < TMP_SIZE
    ensures UnderRoot(Cut(path, root, sz), root)
    ensures var base := Resolve(Components(root), []);
            base <= Resolve(Components(Cut(path, root, sz)), [])
            <==> base == [] || Room(sz) != |root| + 3 || !("/.." <= Clamped(path, root)[|root|..])
    ensures Room(sz) >= |root| + 4 ==> Resolve(Components(root), []) <= Resolve(Components(Cut(path, root, sz)), [])
  {
    var sub := if UnderRoot(path, root) then path[|root|..] else path;
    var stack := Limited(Components(sub), [], CANON_SIZE);
    CanonPlain(sub, CANON_SIZE);
    ClampedRender(path, root, stack);
    CutUnder(root, stack, Room(sz));
  }

  lemma AbsoluteName(c: string)
    requires c != [] && '/' !in c
    ensures Components("/" + c) == [c] && Render([c]) == "/" + c
  {
    ComponentsConcat("", c);
    OneComponent(c);
    assert "" + "/" + c == "/" + c && [c][..0] == [];
  }

  /** A name that begins with two dots, and buffers that keep just those after the root. */
  lemma CutToDots(root: string, c: string)
    requires c != [] && '/' !in c && |c| < CANON_SIZE - 4 && |root| + 4 < TMP_SIZE && !UnderRoot("/" + (".." + c), root)
    ensures Cut("/" + (".." + c), root, |root| + 4) == root + "/.."
  {
    var name := ".." + c;
    var path := "/" + name;
    AbsoluteName(name);
    assert [] + [name] == [name] && [name][1..] == [];
    assert Plain(name);
    assert Limited([name], [], CANON_SIZE) == [name];
    ClampedRender(path, root, [name]);
    assert (root + path)[..|root| + 3] == root + "/..";
  }

  lemma UpFrom(root: string, stack: seq<string>)
    requires Resolve(Components(root), []) == stack
    ensures Resolve(Components(root + "/.."), []) == Pop(stack)
  {
    AfterRoot(root, "/..");
    DotsOnly();
    assert [".."][1..] == [];
  }

  /** A buffer of six bytes: what is left leads above the root. */
  lemma CutLeaves()
    ensures Cut("/..a", "/r", 6) == "/r/.." && Resolve(Components("/r/.."), []) == []
    ensures Resolve(Components("/r"), []) == ["r"]
  {
    assert "/r" + "/.." == "/r/.." && "/" + (".." + "a") == "/..a" && "/" + "r" == "/r";
    CutToDots("/r", "a");
    AbsoluteName("r");
    ResolvePlain(["r"], []);
    assert [] + ["r"] == ["r"];
    UpFrom("/r", ["r"]);
  }
}
