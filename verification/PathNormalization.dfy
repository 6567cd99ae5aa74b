/**
 Path normalisation (services/src/http_message.cpp, `removeLastSegment` and `HttpRequest::normalize`)
 against remove_dot_segments, section 5.2.4 of RFC 3986, and against a stack of segments.
 */
module PathNormalization {
  // ----- the RFC's algorithm, one step a line

  predicate NoSlash(s: string) { '/' !in s }

  /** Where the next `c` is, from `from` on; the length of `s` when there is none. */
  function IndexOf(s: string, c: char, from: nat): (r: nat)
    requires from <= |s|
    ensures from <= r <= |s| && c !in s[from..r] && (r < |s| ==> s[r] == c)
    decreases |s| - from
  {
    if from == |s| || s[from] == c then from else IndexOf(s, c, from + 1)
  }

  /** The length of the first segment, its leading slash included. */
  function FirstSegment(input: string): (r: nat)
    requires input != ""
    ensures 1 <= r <= |input|
  {
    IndexOf(input, '/', if input[0] == '/' then 1 else 0)
  }

  /** The output buffer without its last segment and the slash before it. */
  function RemoveLast(output: string): string {
    if output == "" then ""
    else
      var shorter := output[..|output| - 1];
      if output[|output| - 1] == '/' then shorter else RemoveLast(shorter)
  }

  function RemoveDots(input: string, output: string): string
    decreases |input|
  {
    if input == "" then output
    else if "../" <= input then RemoveDots(input[3..], output)
    else if "./" <= input then RemoveDots(input[2..], output)
    else if "/./" <= input then RemoveDots("/" + input[3..], output)
    else if input == "/." then RemoveDots("/", output)
    else if "/../" <= input then RemoveDots("/" + input[4..], RemoveLast(output))
    else if input == "/.." then RemoveDots("/", RemoveLast(output))
    else if input == "." || input == ".." then output
    else RemoveDots(input[FirstSegment(input)..], output + input[..FirstSegment(input)])
  }

  // ----- what the repository computes

  /** Every run of slashes made one. */
  function Collapse(p: string): string {
    if |p| < 2 then p
    else if p[0] == '/' && p[1] == '/' then Collapse(p[1..])
    else [p[0]] + Collapse(p[1..])
  }

  predicate RunAt(p: string, k: int) {
    0 <= k < |p| - 1 && p[k] == '/' && p[k + 1] == '/'
  }

  ghost predicate NoRuns(p: string) {
    forall k :: !RunAt(p, k)
  }

  /** The path once its leading "../" and "./" are gone. */
  function StripPrefix(p: string): string {
    if "../" <= p then StripPrefix(p[3..])
    else if "./" <= p then StripPrefix(p[2..])
    else p
  }

  predicate DotsOnly(p: string) {
    forall c | c in p :: c == '.'
  }

  /** What is left is one segment of three dots or more, and no slash before it. */
  predicate LoneDots(p: string) {
    |StripPrefix(p)| >= 3 && DotsOnly(StripPrefix(p))
  }

  function Normalized(p: string): string {
    var c := Collapse(p);
    if LoneDots(c) then "" else RemoveDots(c, "")
  }

  method RemoveLastSegment(path: string) returns (r: string)
    ensures r == RemoveLast(path)
  {
    r := path;
    while r != ""
      invariant RemoveLast(r) == RemoveLast(path)
      decreases |r|
    {
      if r[|r| - 1] == '/' {
        r := r[..|r| - 1];
        return;
      }
      r := r[..|r| - 1];
    }
  }

  /** The first "//" from `from` on, or the length of `s`. */
  method FindRun(s: string, from: nat) returns (r: nat)
    requires from <= |s|
    ensures from <= r <= |s| && (r < |s| ==> RunAt(s, r))
    ensures forall k :: from <= k < r ==> !RunAt(s, k)
  {
    r := from;
    while r < |s| && !RunAt(s, r)
      invariant from <= r <= |s|
      invariant forall k :: from <= k < r ==> !RunAt(s, k)
    {
      r := r + 1;
    }
  }

  method CollapseSlashes(p: string) returns (path: string)
    ensures path == Collapse(p)
  {
    path := p;
    var pos := FindRun(path, 0);
    while pos < |path|
      invariant pos <= |path| && (pos < |path| ==> RunAt(path, pos))
      invariant forall k :: 0 <= k < pos ==> !RunAt(path, k)
      invariant Collapse(path) == Collapse(p)
      decreases |path|
    {
      CollapseReplaced(path[..pos], path[pos + 2..]);
      assert path == path[..pos] + "//" + path[pos + 2..];
      ghost var was := path;
      path := path[..pos] + "/" + path[pos + 2..];
      assert forall k :: 0 <= k < pos ==> (RunAt(path, k) ==> RunAt(was, k));
      pos := FindRun(path, pos);
    }
    CollapseWithoutRuns(path);
  }

  method Normalize(p: string) returns (output: string)
    ensures output == Normalized(p)
  {
    output := "";
    var path := CollapseSlashes(p);
    ghost var c := path;
    while path != ""
      invariant Agrees(path, output, c)
      decreases |path|
    {
      Branches(path, output);
      if "../" <= path {
        path := path[3..];
      } else if "./" <= path {
        path := path[2..];
      } else if "/./" <= path {
        path := "/" + path[3..];
      } else if path == "/." {
        path := "/";
      } else if "/../" <= path {
        path := "/" + path[4..];
        output := RemoveLastSegment(output);
      } else if path == "/.." {
        path := "/";
        output := RemoveLastSegment(output);
      } else if DotsOnly(path) {
        path := "";
      } else {
        var pos := IndexOf(path, '/', if path[0] == '/' then 1 else 0);
        output := output + path[..pos];
        path := path[pos..];
      }
    }
  }

  /** What holds of the two buffers all along: nothing was output before lone dots, or the RFC is followed. */
  ghost predicate Agrees(path: string, output: string, c: string) {
    && (path != "" && path[0] != '/' ==> output == "")
    && if LoneDots(c) then output == "" && (path == "" || LoneDots(path))
       else !LoneDots(path) && RemoveDots(path, output) == RemoveDots(c, "")
  }

  /** No path from a slash on is lone dots; a path of dots only is lone dots or what the RFC drops. */
  lemma Branches(path: string, output: string)
    requires path != ""
    ensures forall rest :: !LoneDots("/" + rest)
    ensures path[0] == '/' ==> !LoneDots(path) && !DotsOnly(path)
    ensures DotsOnly(path) ==> !("../" <= path) && !("./" <= path)
    ensures DotsOnly(path) && !LoneDots(path) ==> path == "." || path == ".."
    ensures !("../" <= path) && !("./" <= path) && LoneDots(path) ==> DotsOnly(path)
    ensures path == "." || path == ".." ==> DotsOnly(path)
    ensures var rest := path[FirstSegment(path)..]; rest == "" || (rest[0] == '/' && !LoneDots(rest))
  {
    forall rest: string ensures !LoneDots("/" + rest) {
      var p := "/" + rest;
      assert p[0] == '/' && p[0] in p && StripPrefix(p) == p;
    }
    var rest := path[FirstSegment(path)..];
    if rest != "" { assert rest == "/" + rest[1..]; }
    if path[0] == '/' { assert path == "/" + path[1..]; }
    if "../" <= path { assert path[2] in path; }
    if "./" <= path { assert path[1] in path; }
    if DotsOnly(path) {
      assert forall i :: 0 <= i < |path| ==> path[i] in path;
      assert |path| == 1 ==> path == ".";
      assert |path| == 2 ==> path == "..";
    }
  }

  lemma {:induction false} CollapseReplaced(a: string, b: string)
    ensures Collapse(a + "//" + b) == Collapse(a + "/" + b)
  {
    if a != "" {
      CollapseReplaced(a[1..], b);
      assert (a + "//" + b)[1..] == a[1..] + "//" + b && (a + "/" + b)[1..] == a[1..] + "/" + b;
    } else {
      assert ("" + "//" + b)[1..] == "" + "/" + b;
    }
  }

  lemma {:induction false} CollapseWithoutRuns(p: string)
    requires NoRuns(p)
    ensures Collapse(p) == p
  {
    if |p| >= 2 {
      assert !RunAt(p, 0);
      assert forall k :: k >= 0 && RunAt(p[1..], k) ==> RunAt(p, k + 1);
      CollapseWithoutRuns(p[1..]);
    }
  }

  // ----- against the RFC, on every path

  lemma {:induction false} StripThenRemove(p: string)
    ensures RemoveDots(p, "") == RemoveDots(StripPrefix(p), "")
    ensures var q := StripPrefix(p); !("../" <= q) && !("./" <= q)
    decreases |p|
  {
    if "../" <= p { StripThenRemove(p[3..]); } else if "./" <= p { StripThenRemove(p[2..]); }
  }

  /** The code and the RFC agree on every path but those that come down to three dots or more. */
  lemma AgreesWithRfcExactly(p: string)
    ensures Normalized(p) == RemoveDots(Collapse(p), "") <==> !LoneDots(Collapse(p))
  {
    var c := Collapse(p);
    if LoneDots(c) {
      var q := StripPrefix(c);
      StripThenRemove(c);
      assert forall i :: 0 <= i < |q| ==> q[i] in q;
      IndexIs(q, 0, |q|);
      assert q[|q|..] == "" && q[..|q|] == q;
    }
  }

  lemma AbsoluteAgreesWithRfc(p: string)
    requires "/" <= p
    ensures Normalized(p) == RemoveDots(Collapse(p), "")
  {
    CollapseKeepsFirst(p);
    var c := Collapse(p);
    Branches(c, "");
  }

  lemma {:induction false} CollapseKeepsFirst(p: string)
    requires p != ""
    ensures Collapse(p) != "" && Collapse(p)[0] == p[0]
  {
    if |p| >= 2 && p[0] == '/' && p[1] == '/' { CollapseKeepsFirst(p[1..]); }
  }

  lemma LoneDotsDiffer()
    ensures Normalized("...") == "" && RemoveDots(Collapse("..."), "") == "..."
  {
    assert Collapse("...") == "...";
    assert StripPrefix("...") == "...";
    AgreesWithRfcExactly("...");
    assert FirstSegment("...") == 3;
    assert "..."[3..] == "" && "..."[..3] == "...";
  }

  // ----- the same by segments: a path is its first segment and then "/" before every other

  function Join(segs: seq<string>): string {
    if segs == [] then "" else "/" + segs[0] + Join(segs[1..])
  }

  predicate Segments(segs: seq<string>) {
    forall i | 0 <= i < |segs| :: NoSlash(segs[i])
  }

  function Split(p: string): (r: seq<string>)
    ensures r != [] && Segments(r)
  {
    if p == "" then [""]
    else
      var rest := Split(p[1..]);
      if p[0] == '/' then [""] + rest else [[p[0]] + rest[0]] + rest[1..]
  }

  lemma {:induction false} SplitThenJoin(p: string)
    ensures p == Split(p)[0] + Join(Split(p)[1..])
  {
    if p != "" {
      SplitThenJoin(p[1..]);
      var rest := Split(p[1..]);
      if p[0] == '/' {
        assert Split(p)[1..] == rest;
        assert Join(rest) == "/" + rest[0] + Join(rest[1..]);
      } else {
        assert Split(p)[1..] == rest[1..];
      }
    }
  }

  lemma {:induction false} JoinThenSplit(root: string, segs: seq<string>)
    requires NoSlash(root) && Segments(segs)
    ensures Split(root + Join(segs)) == [root] + segs
    decreases |segs|, |root|
  {
    var p := root + Join(segs);
    if root != "" {
      assert p[1..] == root[1..] + Join(segs);
      JoinThenSplit(root[1..], segs);
      assert p[0] == root[0] && root[0] in root;
      assert [p[0]] + root[1..] == root;
    } else if segs != [] {
      assert p[1..] == segs[0] + Join(segs[1..]);
      JoinThenSplit(segs[0], segs[1..]);
    }
  }

  /** What is under the stack is the path's own first segment, which only a ".." on an empty stack removes. */
  datatype Stack = Stack(root: string, segs: seq<string>)

  function Pop(s: Stack): Stack {
    if s.segs == [] then Stack("", []) else Stack(s.root, s.segs[..|s.segs| - 1])
  }

  function Text(s: Stack): string { s.root + Join(s.segs) }

  function Advance(s: Stack, a: string): Stack {
    if a == "." then s else if a == ".." then Pop(s) else Stack(s.root, s.segs + [a])
  }

  /** Push every segment, pop on "..", skip "."; a last "." or ".." leaves a trailing slash. */
  function Resolve(s: Stack, segs: seq<string>): Stack
    decreases |segs|
  {
    if segs == [] then s
    else
      var next := Advance(s, segs[0]);
      if |segs| == 1 && (segs[0] == "." || segs[0] == "..") then Stack(next.root, next.segs + [""])
      else Resolve(next, segs[1..])
  }

  ghost predicate WellFormed(s: Stack) { NoSlash(s.root) && Segments(s.segs) }

  lemma {:induction false} JoinSnoc(segs: seq<string>, last: string)
    ensures Join(segs + [last]) == Join(segs) + "/" + last
  {
    if segs == [] {
      assert segs + [last] == [last];
    } else {
      JoinSnoc(segs[1..], last);
      assert (segs + [last])[1..] == segs[1..] + [last];
    }
  }

  lemma {:induction false} RemoveLastOf(p: string, last: string)
    requires NoSlash(last)
    ensures RemoveLast(p + "/" + last) == p
    ensures RemoveLast(last) == ""
    decreases |last|
  {
    if last != "" {
      var shorter := last[..|last| - 1];
      assert last[|last| - 1] in last;
      RemoveLastOf(p, shorter);
      assert (p + "/" + last)[..|p + "/" + last| - 1] == p + "/" + shorter;
    } else {
      assert (p + "/" + last)[..|p|] == p;
    }
  }

  lemma RemoveLastPops(s: Stack)
    requires WellFormed(s)
    ensures RemoveLast(Text(s)) == Text(Pop(s)) && WellFormed(Pop(s))
  {
    if s.segs == [] {
      RemoveLastOf("", s.root);
      assert Text(s) == s.root;
    } else {
      var last := s.segs[|s.segs| - 1];
      var others := s.segs[..|s.segs| - 1];
      assert s.segs == others + [last];
      JoinSnoc(others, last);
      RemoveLastOf(s.root + Join(others), last);
      assert Text(s) == s.root + Join(others) + "/" + last;
    }
  }

  ghost predicate Continues(rest: string) {
    rest == "" || rest[0] == '/'
  }

  /** A path begins with the segment `w` exactly when its first segment is `w`. */
  lemma HeadIs(w: string, a: string, rest: string)
    requires NoSlash(w) && NoSlash(a) && Continues(rest)
    ensures w + "/" <= a + rest <==> a == w && rest != ""
    ensures "/" + w + "/" <= "/" + a + rest <==> a == w && rest != ""
    ensures a + rest == w <==> a == w && rest == ""
    ensures "/" + a + rest == "/" + w <==> a == w && rest == ""
  {
    var p, x := a + rest, w + "/";
    assert forall i :: 0 <= i < |a| ==> p[i] == a[i] && a[i] in a;
    assert forall i :: 0 <= i < |w| ==> x[i] == w[i] && w[i] in w;
    assert "/" + a + rest == "/" + p && "/" + w + "/" == "/" + x;
    Cons('/', x, p);
    Cons('/', w, p);
    assert w <= x && (rest != "" ==> p[|a|] == '/');
    if x <= p {
      assert p[|w|] == x[|w|] == '/';
      assert |a| == |w| && a == p[..|a|] == x[..|w|] == w;
    }
  }

  lemma Cons(c: char, x: string, p: string)
    ensures [c] + x <= [c] + p <==> x <= p
    ensures [c] + x == [c] + p <==> x == p
  {
    assert ([c] + x)[1..] == x && ([c] + p)[1..] == p;
    if [c] + x <= [c] + p { assert ([c] + p)[..|x| + 1] == [c] + x; assert p[..|x|] == ([c] + p)[..|x| + 1][1..]; }
  }

  lemma FirstSegmentIs(a: string, rest: string)
    requires NoSlash(a) && Continues(rest)
    ensures FirstSegment("/" + a + rest) == 1 + |a|
    ensures a != "" ==> FirstSegment(a + rest) == |a|
  {
    var p, q := "/" + a + rest, a + rest;
    assert forall i :: 0 <= i < |a| ==> q[i] == p[i + 1] == a[i] && a[i] in a;
    IndexIs(p, 1, 1 + |a|);
    if a != "" { IndexIs(q, 0, |a|); }
  }

  lemma IndexIs(s: string, from: nat, i: nat)
    requires from <= i <= |s| && (i < |s| ==> s[i] == '/')
    requires forall k :: from <= k < i ==> s[k] != '/'
    ensures IndexOf(s, '/', from) == i
  {
    var r := IndexOf(s, '/', from);
    assert forall k :: from <= k < r ==> s[k] == s[from..r][k - from];
  }

  /** One round of the RFC's loop, or two, on a path that starts with a slash. */
  lemma DotSegment(rest: string, output: string)
    requires Continues(rest)
    ensures RemoveDots("/" + "." + rest, output) == if rest == "" then output + "/" else RemoveDots(rest, output)
  {
    var input := "/" + "." + rest;
    assert input[0] == '/' && input[1] == '.';
    if rest == "" {
      assert input == "/.";
      TrailingSlash(output);
    } else {
      assert input[..3] == "/./" && "/" + input[3..] == rest;
    }
  }

  lemma DotDotSegment(rest: string, output: string)
    requires Continues(rest)
    ensures RemoveDots("/" + ".." + rest, output)
            == if rest == "" then RemoveLast(output) + "/" else RemoveDots(rest, RemoveLast(output))
  {
    var input := "/" + ".." + rest;
    assert input[0] == '/' && input[1] == '.' && input[2] == '.';
    if rest == "" {
      assert input == "/..";
      TrailingSlash(RemoveLast(output));
    } else {
      assert input[..4] == "/../" && "/" + input[4..] == rest;
    }
  }

  /** None of the prefixes the RFC treats first is there. */
  predicate Plain(p: string) {
    && p != "" && !("../" <= p) && !("./" <= p) && !("/./" <= p) && p != "/."
    && !("/../" <= p) && p != "/.." && p != "." && p != ".."
  }

  lemma MoveSegment(p: string, segment: string, rest: string, output: string)
    requires Plain(p) && p == segment + rest && |segment| == FirstSegment(p)
    ensures RemoveDots(p, output) == RemoveDots(rest, output + segment)
  {
    assert p[..|segment|] == segment && p[|segment|..] == rest;
  }

  lemma AbsoluteTests(a: string, rest: string)
    requires NoSlash(a) && Continues(rest) && a != "." && a != ".."
    ensures Plain("/" + a + rest)
  {
    assert ("/" + a + rest)[0] == '/';
    assert "/" + "." == "/." && "/" + ".." == "/.." && "/" + "." + "/" == "/./" && "/" + ".." + "/" == "/../";
    HeadIs(".", a, rest);
    HeadIs("..", a, rest);
  }

  lemma PlainSegment(a: string, rest: string, output: string)
    requires NoSlash(a) && Continues(rest) && a != "." && a != ".."
    ensures RemoveDots("/" + a + rest, output) == RemoveDots(rest, output + "/" + a)
  {
    AbsoluteTests(a, rest);
    FirstSegmentIs(a, rest);
    MoveSegment("/" + a + rest, "/" + a, rest, output);
    assert output + ("/" + a) == output + "/" + a;
  }

  lemma TextSnoc(s: Stack, a: string)
    ensures Text(Stack(s.root, s.segs + [a])) == Text(s) + "/" + a
  {
    JoinSnoc(s.segs, a);
  }

  lemma {:induction false} RemoveDotsResolves(s: Stack, segs: seq<string>)
    requires WellFormed(s) && Segments(segs)
    ensures RemoveDots(Join(segs), Text(s)) == Text(Resolve(s, segs))
    decreases |segs|
  {
    if segs != [] {
      var a, rest := segs[0], segs[1..];
      var next := Advance(s, a);
      if a == "." {
        DotSegment(Join(rest), Text(s));
      } else if a == ".." {
        DotDotSegment(Join(rest), Text(s));
        RemoveLastPops(s);
      } else {
        PlainSegment(a, Join(rest), Text(s));
        TextSnoc(s, a);
      }
      TextSnoc(next, "");
      assert rest != [] ==> Join(rest) != "";
      RemoveDotsResolves(next, rest);
    }
  }

  lemma TrailingSlash(output: string)
    ensures RemoveDots("/", output) == output + "/"
  {
    assert FirstSegment("/") == 1 && "/"[1..] == "" && "/"[..1] == "/";
  }

  /** A path without leading "../" and "./", as its segments run through the stack. */
  function BySegments(q: string): Stack {
    if q == "." || q == ".." then Stack("", []) else Resolve(Stack(Split(q)[0], []), Split(q)[1..])
  }

  lemma RelativeTests(a: string, rest: string)
    requires a != "" && NoSlash(a) && Continues(rest) && a != "." && a != ".."
    ensures Plain(a + rest)
  {
    assert (a + rest)[0] == a[0] && a[0] in a;
    assert "." + "/" == "./" && ".." + "/" == "../";
    HeadIs(".", a, rest);
    HeadIs("..", a, rest);
  }

  lemma RelativeStart(a: string, rest: string)
    requires a != "" && NoSlash(a) && Continues(rest) && a != "." && a != ".."
    ensures RemoveDots(a + rest, "") == RemoveDots(rest, a)
  {
    RelativeTests(a, rest);
    FirstSegmentIs(a, rest);
    MoveSegment(a + rest, a, rest, "");
    assert "" + a == a;
  }

  lemma StrippedStart(p: string)
    ensures var q := StripPrefix(p); q != "." && q != ".." ==> Split(q)[0] != "." && Split(q)[0] != ".."
  {
    var q := StripPrefix(p);
    var first, rest := Split(q)[0], Join(Split(q)[1..]);
    StripThenRemove(p);
    SplitThenJoin(q);
    assert "." + "/" == "./" && ".." + "/" == "../";
    HeadIs(".", first, rest);
    HeadIs("..", first, rest);
  }

  /** The RFC's buffers compute, for every path, what its segments leave on a stack. */
  lemma RemoveDotsBySegments(p: string)
    ensures RemoveDots(p, "") == Text(BySegments(StripPrefix(p)))
  {
    var q := StripPrefix(p);
    StripThenRemove(p);
    if q != "." && q != ".." {
      var first, segs := Split(q)[0], Split(q)[1..];
      SplitThenJoin(q);
      StrippedStart(p);
      if first != "" { RelativeStart(first, Join(segs)); }
      assert Text(Stack(first, [])) == first && (first == "" ==> q == Join(segs));
      RemoveDotsResolves(Stack(first, []), segs);
    }
  }

  // ----- what normalised paths look like

  ghost predicate NoDotSegments(segs: seq<string>) {
    forall i | 0 <= i < |segs| :: segs[i] != "." && segs[i] != ".."
  }

  ghost predicate OnlyLastEmpty(segs: seq<string>) {
    forall i | 0 <= i < |segs| - 1 :: segs[i] != ""
  }

  ghost predicate Clean(p: string) {
    NoRuns(p) && NoDotSegments(Split(p))
  }

  lemma NoRunsTail(p: string)
    requires p != ""
    ensures NoRuns(p) <==> !RunAt(p, 0) && NoRuns(p[1..])
  {
    if NoRuns(p) {
      assert forall k :: RunAt(p[1..], k) ==> RunAt(p, k + 1);
    }
    if !RunAt(p, 0) && NoRuns(p[1..]) {
      assert forall k :: RunAt(p, k) && k > 0 ==> RunAt(p[1..], k - 1);
    }
  }

  lemma OnlyLastEmptyTail(segs: seq<string>)
    requires segs != []
    ensures OnlyLastEmpty(segs) <==> OnlyLastEmpty(segs[1..]) && (|segs| == 1 || segs[0] != "")
  {
    assert forall i | 0 < i < |segs| :: segs[i] == segs[1..][i - 1];
  }

  lemma {:induction false} RunsInSegments(root: string, segs: seq<string>)
    requires NoSlash(root) && Segments(segs)
    ensures NoRuns(root + Join(segs)) <==> OnlyLastEmpty(segs)
    decreases |segs|, |root|
  {
    var p := root + Join(segs);
    if root != "" {
      NoRunsTail(p);
      assert p[0] == root[0] && root[0] in root && p[1..] == root[1..] + Join(segs);
      RunsInSegments(root[1..], segs);
    } else if segs != [] {
      NoRunsTail(p);
      var rest := segs[1..];
      assert p[1..] == segs[0] + Join(rest);
      RunsInSegments(segs[0], rest);
      assert segs[0] != "" ==> p[1] == segs[0][0] && segs[0][0] in segs[0];
      OnlyLastEmptyTail(segs);
    }
  }

  lemma {:induction false} CollapseHasNoRuns(p: string)
    ensures NoRuns(Collapse(p))
  {
    if |p| >= 2 {
      CollapseHasNoRuns(p[1..]);
      if !(p[0] == '/' && p[1] == '/') {
        CollapseKeepsFirst(p[1..]);
        NoRunsTail(Collapse(p));
        assert Collapse(p)[1..] == Collapse(p[1..]);
      }
    }
  }

  lemma {:induction false} StripKeepsNoRuns(p: string)
    requires NoRuns(p)
    ensures NoRuns(StripPrefix(p))
    decreases |p|
  {
    if "../" <= p {
      assert forall k :: k >= 0 && RunAt(p[3..], k) ==> RunAt(p, k + 3);
      StripKeepsNoRuns(p[3..]);
    } else if "./" <= p {
      assert forall k :: k >= 0 && RunAt(p[2..], k) ==> RunAt(p, k + 2);
      StripKeepsNoRuns(p[2..]);
    }
  }

  ghost predicate CleanStack(s: Stack) {
    WellFormed(s) && s.root != "." && s.root != ".." && NoDotSegments(s.segs) && OnlyLastEmpty(s.segs)
  }

  lemma {:induction false} ResolveIsClean(s: Stack, segs: seq<string>)
    requires CleanStack(s) && "" !in s.segs && Segments(segs) && OnlyLastEmpty(segs)
    ensures var t := Resolve(s, segs);
      CleanStack(t) && (segs != [] ==> t.segs != []) && (s.root == "" ==> t.root == "")
    decreases |segs|
  {
    if segs != [] {
      var a := segs[0];
      var next := Advance(s, a);
      assert CleanStack(next);
      if |segs| > 1 {
        ResolveIsClean(next, segs[1..]);
      } else if a == "." || a == ".." {
        assert "" !in next.segs;
        assert CleanStack(Stack(next.root, next.segs + [""]));
      }
    }
  }

  lemma {:induction false} ResolveIdle(s: Stack, segs: seq<string>)
    requires NoDotSegments(segs)
    ensures Resolve(s, segs) == Stack(s.root, s.segs + segs)
    decreases |segs|
  {
    if segs != [] {
      ResolveIdle(Stack(s.root, s.segs + [segs[0]]), segs[1..]);
      assert s.segs + [segs[0]] + segs[1..] == s.segs + segs;
    } else {
      assert s.segs + segs == s.segs;
    }
  }

  lemma EmptyIsClean()
    ensures Clean("") && !LoneDots("")
  {
    assert Split("") == [""];
    assert StripPrefix("") == "";
  }

  lemma StackIsClean(t: Stack)
    requires CleanStack(t)
    ensures Split(Text(t)) == [t.root] + t.segs && Clean(Text(t)) && StripPrefix(Text(t)) == Text(t)
  {
    JoinThenSplit(t.root, t.segs);
    RunsInSegments(t.root, t.segs);
    assert forall i | 0 < i <= |t.segs| :: ([t.root] + t.segs)[i] == t.segs[i - 1];
    assert "." + "/" == "./" && ".." + "/" == "../";
    HeadIs(".", t.root, Join(t.segs));
    HeadIs("..", t.root, Join(t.segs));
  }

  /** The stack a normalised path is the text of. */
  lemma ResultStack(p: string) returns (t: Stack)
    requires !LoneDots(Collapse(p))
    ensures CleanStack(t) && Normalized(p) == Text(t) && !LoneDots(Text(t))
    ensures "/" <= p ==> t.root == "" && t.segs != []
  {
    var c := Collapse(p);
    var q := StripPrefix(c);
    t := BySegments(q);
    RemoveDotsBySegments(c);
    if p != "" {
      CollapseKeepsFirst(p);
      assert "/" <= p ==> q == c && c[0] == '/';
    }
    if q == "." || q == ".." {
      EmptyIsClean();
      assert Text(t) == "";
    } else {
      var root, segs := Split(q)[0], Split(q)[1..];
      SplitThenJoin(q);
      CollapseHasNoRuns(p);
      StripKeepsNoRuns(c);
      RunsInSegments(root, segs);
      StrippedStart(c);
      ResolveIsClean(Stack(root, []), segs);
      StackIsClean(t);
      if t.segs == [] {
        assert Text(t) == root == q;
      } else {
        assert Text(t)[|t.root|] == '/' && '/' in Text(t);
      }
    }
  }

  /** No "//", no "." and no ".." in what normalisation returns; absolute paths stay absolute. */
  lemma NormalizedIsClean(p: string)
    ensures Clean(Normalized(p)) && !LoneDots(Normalized(p))
    ensures "/" <= p ==> "/" <= Normalized(p)
  {
    if LoneDots(Collapse(p)) {
      EmptyIsClean();
      if "/" <= p { AbsoluteAgreesWithRfc(p); CollapseKeepsFirst(p); Branches(Collapse(p), ""); }
    } else {
      var t := ResultStack(p);
      StackIsClean(t);
    }
  }

  lemma CleanIsStack(p: string) returns (t: Stack)
    requires Clean(p)
    ensures CleanStack(t) && Text(t) == p && t == Stack(Split(p)[0], Split(p)[1..])
  {
    SplitThenJoin(p);
    t := Stack(Split(p)[0], Split(p)[1..]);
    RunsInSegments(t.root, t.segs);
  }

  lemma CleanIsFixed(p: string)
    requires Clean(p) && !LoneDots(p)
    ensures Normalized(p) == p
  {
    CollapseWithoutRuns(p);
    var t := CleanIsStack(p);
    StackIsClean(t);
    RemoveDotsBySegments(p);
    assert p != "." && p != ".." by {
      JoinThenSplit(".", []);
      JoinThenSplit("..", []);
      assert "." + "" == "." && ".." + "" == "..";
    }
    ResolveIdle(Stack(t.root, []), t.segs);
    assert [] + t.segs == t.segs;
  }

  /** The paths normalisation leaves alone are exactly the clean ones, lone dots apart. */
  lemma FixedExactlyWhenClean(p: string)
    ensures Normalized(p) == p <==> Clean(p) && !LoneDots(p)
  {
    NormalizedIsClean(p);
    if Clean(p) && !LoneDots(p) { CleanIsFixed(p); }
  }

  lemma NormalizeTwice(p: string)
    ensures Normalized(Normalized(p)) == Normalized(p)
  {
    NormalizedIsClean(p);
    CleanIsFixed(Normalized(p));
  }
}
