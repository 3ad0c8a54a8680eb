/** Path cleaning (vfs_clean_path): the string is rewritten part by part into a buffer, and the
    result names the same place. */
module Path {
  import opened Prelude

  // ----- strings and lists of parts

  /** A list of path parts, which grows and shrinks at its end. */
  datatype Names = Nil | Snoc(init: Names, last: string)

  function Depth(list: Names): nat { if list.Nil? then 0 else Depth(list.init) + 1 }

  /** The parts between the slashes of `t`: those in `done`, then the one that starts at `s` and
      has no slash before `i`, then the rest. */
  function Split(done: Names, t: string, s: nat, i: nat): Names
    requires s <= i <= |t|
    decreases |t| - i
  {
    if i == |t| then Snoc(done, Sub(t, s, i))
    else if t[i] == '/' then Split(Snoc(done, Sub(t, s, i)), t, i + 1, i + 1)
    else Split(done, t, s, i + 1)
  }

  /** A leading slash opens the first part instead of closing an empty one. */
  function Parts(path: string): Names {
    if path != [] && path[0] == '/' then Split(Nil, path, 1, 1) else Split(Nil, path, 0, 0)
  }

  /** Each part behind its own slash. */
  function Body(list: Names): string {
    if list.Nil? then [] else Body(list.init) + ['/'] + list.last
  }

  /** What the kernel keeps: the root is a lone slash. */
  function Render(list: Names): string { if list.Nil? then ['/'] else Body(list) }

  /** The C string at the start of a buffer. */
  function Text(buffer: string): string {
    if buffer == [] || buffer[0] == '\0' then [] else [buffer[0]] + Text(buffer[1..])
  }

  lemma {:induction false} TextIs(buffer: string, n: nat)
    requires n < |buffer| && buffer[n] == '\0' && '\0' !in buffer[..n]
    ensures Text(buffer) == buffer[..n]
  {
    if n > 0 {
      assert buffer[..n][0] == buffer[0] && buffer[..n][1..] == buffer[1..][..n - 1];
      TextIs(buffer[1..], n - 1);
    }
  }

  // ----- cleaning

  predicate IsDot(part: string) { part == "." }

  predicate IsUp(part: string) { part == ".." }

  /** A part that leads nowhere. */
  predicate Blank(part: string) { part == [] || IsDot(part) }

  predicate EndsUp(list: Names) { list.Snoc? && IsUp(list.last) }

  /** The parts written so far, and the flag that says whether the last part looked at was a
      parent reference. */
  datatype State = State(out: Names, dotdot: bool)

  function Step(s: State, part: string): State {
    if IsUp(part) && s.out.Snoc? && !s.dotdot then State(s.out.init, EndsUp(s.out.init))
    else State(if Blank(part) then s.out else Snoc(s.out, part), IsUp(part))
  }

  function Clean(parts: Names): State {
    if parts.Nil? then State(Nil, false) else Step(Clean(parts.init), parts.last)
  }

  ghost predicate Plain(part: string) { '/' !in part && '\0' !in part }

  ghost predicate Named(list: Names) { list.Snoc? ==> Plain(list.last) && Named(list.init) }

  predicate AllUp(list: Names) { list.Snoc? ==> IsUp(list.last) && AllUp(list.init) }

  /** No blank parts, and parent references only as a leading block. */
  ghost predicate Canonical(out: Names) {
    out.Snoc? ==>
      && Canonical(out.init) && Plain(out.last) && !Blank(out.last)
      && (IsUp(out.last) ==> AllUp(out.init))
  }

  lemma {:induction false} CleanIsCanonical(parts: Names)
    requires Named(parts)
    ensures Canonical(Clean(parts).out)
    ensures Clean(parts).dotdot ==> EndsUp(Clean(parts).out)
  {
    if parts.Snoc? { CleanIsCanonical(parts.init); }
  }

  /** Cleaning keeps a canonical list of parts. */
  lemma {:induction false} CanonicalIsKept(out: Names)
    requires Canonical(out)
    ensures Clean(out) == State(out, EndsUp(out))
  {
    if out.Snoc? { CanonicalIsKept(out.init); }
  }

  lemma {:induction false} CanonicalNamed(out: Names)
    requires Canonical(out)
    ensures Named(out)
  {
    if out.Snoc? { CanonicalNamed(out.init); }
  }

  // ----- what the parts of a text are

  lemma {:induction false} SplitJoins(done: Names, t: string, s: nat, i: nat)
    requires s <= i <= |t|
    ensures Body(Split(done, t, s, i)) == Body(done) + ['/'] + Sub(t, s, |t|)
    decreases |t| - i
  {
    if i < |t| {
      if t[i] == '/' {
        SplitJoins(Snoc(done, Sub(t, s, i)), t, i + 1, i + 1);
        assert Sub(t, s, i) + ['/'] + Sub(t, i + 1, |t|) == Sub(t, s, |t|);
      } else {
        SplitJoins(done, t, s, i + 1);
      }
    }
  }

  predicate Absolute(path: string) { path != [] && path[0] == '/' }

  /** The parts, each behind a slash, are the text again, with a leading slash if it had none; and no part holds
      a slash. */
  lemma PartsJoin(path: string)
    requires '\0' !in path
    ensures Body(Parts(path)) == if Absolute(path) then path else ['/'] + path
    ensures Named(Parts(path)) && Parts(path).Snoc?
  {
    if Absolute(path) {
      SplitJoins(Nil, path, 1, 1);
      SplitNamed(Nil, path, 1, 1);
      assert ['/'] + Sub(path, 1, |path|) == path;
    } else {
      SplitJoins(Nil, path, 0, 0);
      SplitNamed(Nil, path, 0, 0);
      assert Sub(path, 0, |path|) == path;
    }
    assert Parts(path).Snoc? by { assert Body(Nil) == []; }
  }

  /** Only one list of parts without slashes joins to a text, so these are the parts. */
  lemma PartsUnique(path: string, list: Names)
    requires '\0' !in path && Named(list) && list.Snoc?
    requires Body(list) == if Absolute(path) then path else ['/'] + path
    ensures Parts(path) == list
  {
    PartsJoin(path);
    SplitBody(list);
    SplitBody(Parts(path));
  }

  // ----- tokens

  /** The parts that are not empty, in order: what `strtok_r` gives. */
  function Words(list: Names): seq<string> {
    if list.Nil? then [] else Words(list.init) + if list.last == [] then [] else [list.last]
  }

  /** Parts read before do not change how the rest is read. */
  lemma {:induction false} SplitWords(done: Names, t: string, s: nat, i: nat)
    requires s <= i <= |t|
    ensures Words(Split(done, t, s, i)) == Words(done) + Words(Split(Nil, t, s, i))
    decreases |t| - i
  {
    if i < |t| {
      if t[i] == '/' {
        SplitWords(Snoc(done, Sub(t, s, i)), t, i + 1, i + 1);
        SplitWords(Snoc(Nil, Sub(t, s, i)), t, i + 1, i + 1);
      } else {
        SplitWords(done, t, s, i + 1);
      }
    }
  }

  lemma {:induction false} WordsOfCanonical(out: Names)
    requires Canonical(out)
    ensures |Words(out)| == Depth(out)
  {
    if out.Snoc? { WordsOfCanonical(out.init); }
  }

  /** The tokens of a cleaned path are its parts. */
  lemma TokensOfRendered(out: Names)
    requires Canonical(out)
    ensures Words(Split(Nil, Render(out), 0, 0)) == Words(out)
  {
    CanonicalNamed(out);
    PartsOfRendered(out);
    var t := Render(out);
    SplitWords(Snoc(Nil, []), t, 1, 1);
    assert Sub(t, 0, 0) == [];
    if out.Nil? { assert Sub(t, 1, 1) == []; }
  }

  /** The loop over `strtok_r`: it skips slashes, then reads up to the next one. */
  method Tokens(t: string) returns (parts: seq<string>)
    ensures parts == Words(Split(Nil, t, 0, 0))
  {
    parts := [];
    var i := 0;
    while i < |t|
      invariant 0 <= i <= |t| && Words(Split(Nil, t, 0, 0)) == parts + Words(Split(Nil, t, i, i))
    {
      if t[i] == '/' {
        SplitWords(Snoc(Nil, []), t, i + 1, i + 1);
        assert Sub(t, i, i) == [];
        i := i + 1;
      } else {
        var s := i;
        ghost var all := Split(Nil, t, s, s);
        while i < |t| && t[i] != '/'
          invariant s <= i <= |t| && Split(Nil, t, s, i) == all && (i == s ==> t[i] != '/')
        {
          i := i + 1;
        }
        var part := Sub(t, s, i);
        assert part != [] && Words(Snoc(Nil, part)) == [part] by { assert Words(Nil) == []; }
        parts := parts + [part];
        if i < |t| {
          SplitWords(Snoc(Nil, part), t, i + 1, i + 1);
          i := i + 1;
        } else {
          assert Words(all) == [part];
          assert Words(Split(Nil, t, i, i)) == [] by { assert Sub(t, i, i) == []; }
        }
      }
    }
    assert Sub(t, i, i) == [];
  }

  // ----- reading back what was written

  lemma {:induction false} SplitLast(done: Names, t: string, s: nat, i: nat)
    requires s <= i <= |t| && forall j | i <= j < |t| :: t[j] != '/'
    ensures Split(done, t, s, i) == Snoc(done, Sub(t, s, |t|))
    decreases |t| - i
  {
    if i < |t| { SplitLast(done, t, s, i + 1); }
  }

  /** A slash splits whatever stands before it from what follows. */
  lemma {:induction false} SplitTail(done: Names, u: string, t: string, s: nat, i: nat)
    requires '/' !in t && s <= i <= |u|
    ensures Split(done, u + ['/'] + t, s, i) == Snoc(Split(done, u, s, i), t)
    decreases |u| - i
  {
    var all := u + ['/'] + t;
    assert Sub(all, s, i) == Sub(u, s, i);
    if i == |u| {
      SplitLast(Snoc(done, Sub(u, s, i)), all, i + 1, i + 1);
      assert Sub(all, i + 1, |all|) == t;
    } else if u[i] == '/' {
      SplitTail(Snoc(done, Sub(u, s, i)), u, t, i + 1, i + 1);
    } else {
      SplitTail(done, u, t, s, i + 1);
    }
  }

  /** Behind its leading slash, a written list splits into its own parts. */
  lemma {:induction false} SplitBody(list: Names)
    requires Named(list) && list.Snoc?
    ensures Body(list) != [] && Body(list)[0] == '/' && Split(Nil, Body(list), 1, 1) == list
  {
    var t := Body(list);
    if list.init.Nil? {
      assert Body(list.init) == [];
      SplitLast(Nil, t, 1, 1);
      assert Sub(t, 1, |t|) == list.last;
    } else {
      SplitBody(list.init);
      SplitTail(Nil, Body(list.init), list.last, 1, 1);
    }
  }

  lemma PartsOfRendered(out: Names)
    requires Named(out)
    ensures Parts(Render(out)) == if out.Nil? then Snoc(Nil, []) else out
  {
    if out.Snoc? { SplitBody(out); }
  }

  lemma {:induction false} BodyPlain(list: Names)
    requires Named(list)
    ensures '\0' !in Body(list)
  {
    if list.Snoc? { BodyPlain(list.init); }
  }

  lemma {:induction false} SplitNamed(done: Names, t: string, s: nat, i: nat)
    requires Named(done) && '\0' !in t && s <= i <= |t| && '/' !in Sub(t, s, i)
    ensures Named(Split(done, t, s, i))
    decreases |t| - i
  {
    assert Plain(Sub(t, s, i));
    if i < |t| {
      if t[i] == '/' {
        SplitNamed(Snoc(done, Sub(t, s, i)), t, i + 1, i + 1);
      } else {
        assert Sub(t, s, i + 1) == Sub(t, s, i) + [t[i]];
        SplitNamed(done, t, s, i + 1);
      }
    }
  }

  /** The cleaned parts are canonical, and cleaning a cleaned path changes nothing. */
  lemma Idempotent(path: string)
    requires '\0' !in path
    ensures Canonical(Clean(Parts(path)).out)
    ensures var once := Render(Clean(Parts(path)).out);
            '\0' !in once && Render(Clean(Parts(once)).out) == once
  {
    var out := Clean(Parts(path)).out;
    if path != [] && path[0] == '/' { SplitNamed(Nil, path, 1, 1); } else { SplitNamed(Nil, path, 0, 0); }
    CleanIsCanonical(Parts(path));
    CanonicalNamed(out);
    BodyPlain(out);
    PartsOfRendered(out);
    CanonicalIsKept(out);
    assert Clean(Snoc(Nil, [])) == Step(Clean(Nil), []);
  }

  // ----- where a path leads

  /** Where a list of parts leads, walked from a directory; the parent of the root is the root. */
  function Resolve(place: Names, parts: Names): Names {
    if parts.Nil? then place
    else
      var before := Resolve(place, parts.init);
      if Blank(parts.last) then before
      else if IsUp(parts.last) then (if before.Nil? then Nil else before.init)
      else Snoc(before, parts.last)
  }

  /** A walk in closed form: levels climbed above the start, then names. */
  datatype Walk = Walk(up: nat, down: Names)

  function Walked(parts: Names): Walk {
    if parts.Nil? then Walk(0, Nil)
    else
      var w := Walked(parts.init);
      if Blank(parts.last) then w
      else if IsUp(parts.last) then (if w.down.Nil? then Walk(w.up + 1, Nil) else Walk(w.up, w.down.init))
      else Walk(w.up, Snoc(w.down, parts.last))
  }

  function Above(place: Names, up: nat): Names {
    if up == 0 then place
    else var p := Above(place, up - 1); if p.Nil? then Nil else p.init
  }

  function Below(place: Names, down: Names): Names {
    if down.Nil? then place else Snoc(Below(place, down.init), down.last)
  }

  lemma {:induction false} ResolveIsWalk(place: Names, parts: Names)
    ensures var w := Walked(parts); Resolve(place, parts) == Below(Above(place, w.up), w.down)
  {
    if parts.Snoc? { ResolveIsWalk(place, parts.init); }
  }

  /** A list that climbs so many levels, then follows these names. */
  ghost predicate Reads(out: Names, up: nat, down: Names) {
    if down.Nil? then AllUp(out) && Depth(out) == up
    else out.Snoc? && out.last == down.last && !Blank(out.last) && !IsUp(out.last) && Reads(out.init, up, down.init)
  }

  lemma {:induction false} ReadsIsWalk(out: Names, up: nat, down: Names)
    requires Reads(out, up, down)
    ensures Walked(out) == Walk(up, down)
    decreases out
  {
    if down.Snoc? { ReadsIsWalk(out.init, up, down.init); }
    else if out.Snoc? { ReadsIsWalk(out.init, up - 1, Nil); }
  }

  /** The levels the cleaned path climbs; its flag can make it forget one. */
  function Climb(parts: Names): nat {
    if parts.Nil? then 0
    else if IsUp(parts.last) && Walked(parts.init).down.Nil? then
      if Climb(parts.init) > 0 && !Clean(parts.init).dotdot then Climb(parts.init) - 1 else Climb(parts.init) + 1
    else Climb(parts.init)
  }

  /** The cleaned path is always some climb followed by the true names, and the climb is never
      longer than the true one. */
  lemma {:induction false} ClimbThenNames(parts: Names)
    ensures Reads(Clean(parts).out, Climb(parts), Walked(parts).down)
    ensures Climb(parts) <= Walked(parts).up
    ensures Clean(parts).dotdot ==> EndsUp(Clean(parts).out)
  {
    if parts.Snoc? { ClimbThenNames(parts.init); }
  }

  lemma CleanedFrom(place: Names, parts: Names)
    ensures Resolve(place, Clean(parts).out) == Below(Above(place, Climb(parts)), Walked(parts).down)
    ensures Resolve(place, parts) == Below(Above(place, Walked(parts).up), Walked(parts).down)
  {
    ClimbThenNames(parts);
    ReadsIsWalk(Clean(parts).out, Climb(parts), Walked(parts).down);
    ResolveIsWalk(place, Clean(parts).out);
    ResolveIsWalk(place, parts);
  }

  /** An absolute list of parts always keeps its meaning. */
  lemma AbsoluteParts(parts: Names)
    ensures Resolve(Nil, Clean(parts).out) == Resolve(Nil, parts)
  {
    CleanedFrom(Nil, parts);
    AboveRoot(Climb(parts));
    AboveRoot(Walked(parts).up);
  }

  lemma {:induction false} AboveRoot(up: nat)
    ensures Above(Nil, up) == Nil
  {
    if up > 0 { AboveRoot(up - 1); }
  }

  /** Some parent reference comes right after a blank part, at a point where the parts before that
      lead straight above the start. */
  predicate Slipping(parts: Names) {
    parts.Snoc? && (Slipping(parts.init) || SlipsAtEnd(parts))
  }

  predicate SlipsAtEnd(parts: Names) {
    && parts.Snoc? && IsUp(parts.last)
    && parts.init.Snoc? && Blank(parts.init.last)
    && Walked(parts.init.init).up > 0 && Walked(parts.init.init).down.Nil?
  }

  /** With a climb written out and no names below it, only a blank part clears the flag. */
  lemma FlagLostAfterBlank(parts: Names)
    requires Walked(parts).down.Nil? && Climb(parts) > 0 && !Clean(parts).dotdot
    ensures parts.Snoc? && Blank(parts.last)
  {
    ClimbThenNames(parts);
    ClimbThenNames(parts.init);
  }

  lemma {:induction false} ShortIffSlipping(parts: Names)
    ensures Climb(parts) < Walked(parts).up <==> Slipping(parts)
  {
    if parts.Snoc? {
      ShortIffSlipping(parts.init);
      ClimbThenNames(parts.init);
      if IsUp(parts.last) && Walked(parts.init).down.Nil? && Climb(parts.init) > 0 && !Clean(parts.init).dotdot {
        FlagLostAfterBlank(parts.init);
      }
    }
  }

  lemma {:induction false} Deeper(place: Names, up: nat, down: Names)
    ensures Depth(Above(place, up)) == if up <= Depth(place) then Depth(place) - up else 0
    ensures Depth(Below(place, down)) == Depth(place) + Depth(down)
    decreases up, down
  {
    if up > 0 { Deeper(place, up - 1, down); } else if down.Snoc? { Deeper(place, 0, down.init); }
  }

  ghost predicate SamePlace(parts: Names, cwd: Names) { Resolve(cwd, Clean(parts).out) == Resolve(cwd, parts) }

  /** From as deep as the true climb, a shorter one ends in another place. */
  lemma ShortDiffers(cwd: Names, parts: Names)
    requires Climb(parts) < Walked(parts).up == Depth(cwd)
    ensures !SamePlace(parts, cwd)
  {
    CleanedFrom(cwd, parts);
    var down := Walked(parts).down;
    Deeper(cwd, Climb(parts), Nil);
    Deeper(cwd, Walked(parts).up, Nil);
    Deeper(Above(cwd, Climb(parts)), 0, down);
    Deeper(Above(cwd, Walked(parts).up), 0, down);
  }

  lemma {:induction false} SomeDepth(n: nat) returns (place: Names)
    ensures Depth(place) == n
  {
    place := Nil;
    if n > 0 { var p := SomeDepth(n - 1); place := Snoc(p, []); }
  }

  /** From every directory the cleaned parts lead where the parts do, if and only if they never slip. */
  lemma RelativeParts(parts: Names)
    ensures (forall cwd :: SamePlace(parts, cwd)) <==> !Slipping(parts)
  {
    ShortIffSlipping(parts);
    ClimbThenNames(parts);
    if Slipping(parts) {
      var cwd := SomeDepth(Walked(parts).up);
      ShortDiffers(cwd, parts);
    } else {
      forall cwd ensures SamePlace(parts, cwd) { CleanedFrom(cwd, parts); }
    }
  }

  // ----- the same, read off the text

  /** One part of a path: nothing and `.` stay, `..` goes up as far as there is an up, a name goes down. */
  function Move(place: Names, part: string): Names {
    if part == "" || part == "." then place
    else if part == ".." then (if place.Nil? then Nil else place.init)
    else Snoc(place, part)
  }

  /** Where the last part of the first `i` characters begins. */
  function LastPart(t: string, i: nat): (s: nat)
    requires i <= |t|
    ensures s <= i && forall j | s <= j < i :: t[j] != '/'
    ensures s > 0 ==> t[s - 1] == '/'
  {
    if i == 0 || t[i - 1] == '/' then i else LastPart(t, i - 1)
  }

  /** Where a text leads from a place: to where everything before its last slash leads, and from there by the
      last part. */
  function Leads(place: Names, t: string): Names
    decreases |t|
  {
    var s := LastPart(t, |t|);
    if s == 0 then Move(place, t) else Move(Leads(place, t[..s - 1]), t[s..])
  }

  lemma {:induction false} LeadsByParts(place: Names, t: string)
    ensures Leads(place, t) == Resolve(place, Split(Nil, t, 0, 0))
    decreases |t|
  {
    var s := LastPart(t, |t|);
    if s == 0 {
      SplitLast(Nil, t, 0, 0);
      assert Sub(t, 0, |t|) == t;
      ResolveMoves(place, Nil, t);
    } else {
      var u, v := t[..s - 1], t[s..];
      LeadsByParts(place, u);
      CutAtLast(t, s);
      SplitTail(Nil, u, v, 0, 0);
      ResolveMoves(place, Split(Nil, u, 0, 0), v);
    }
  }

  lemma ResolveMoves(place: Names, list: Names, part: string)
    ensures Resolve(place, Snoc(list, part)) == Move(Resolve(place, list), part)
  {}

  lemma CutAtLast(t: string, s: nat)
    requires s == LastPart(t, |t|) && s > 0
    ensures t == t[..s - 1] + ['/'] + t[s..] && '/' !in t[s..]
  {}

  lemma {:induction false} SameRest(place: Names, a: Names, b: Names, t: string, s: nat, i: nat)
    requires s <= i <= |t| && Resolve(place, a) == Resolve(place, b)
    ensures Resolve(place, Split(a, t, s, i)) == Resolve(place, Split(b, t, s, i))
    decreases |t| - i
  {
    if i < |t| {
      if t[i] == '/' {
        SameRest(place, Snoc(a, Sub(t, s, i)), Snoc(b, Sub(t, s, i)), t, i + 1, i + 1);
      } else {
        SameRest(place, a, b, t, s, i + 1);
      }
    }
  }

  lemma LeadsIsResolve(place: Names, path: string)
    ensures Leads(place, path) == Resolve(place, Parts(path))
  {
    LeadsByParts(place, path);
    if Absolute(path) {
      assert Sub(path, 0, 0) == [];
      assert Resolve(place, Snoc(Nil, [])) == Resolve(place, Nil);
      SameRest(place, Snoc(Nil, []), Nil, path, 1, 1);
    }
  }

  /** What vfs_clean_path makes of a path. */
  function Cleaned(path: string): string { Render(Clean(Parts(path)).out) }

  lemma CleanedLeads(place: Names, path: string)
    requires '\0' !in path
    ensures Leads(place, Cleaned(path)) == Resolve(place, Clean(Parts(path)).out)
  {
    var out := Clean(Parts(path)).out;
    Idempotent(path);
    CanonicalNamed(out);
    PartsOfRendered(out);
    LeadsIsResolve(place, Cleaned(path));
    if out.Nil? { assert Resolve(place, Snoc(Nil, [])) == Resolve(place, Nil); }
  }

  /** From the top, every text leads to the same place before and after cleaning. */
  lemma AbsoluteMeaning(path: string)
    requires '\0' !in path
    ensures Leads(Nil, Cleaned(path)) == Leads(Nil, path)
  {
    CleanedLeads(Nil, path);
    LeadsIsResolve(Nil, path);
    AbsoluteParts(Parts(path));
  }

  ghost predicate KeepsPlace(path: string, cwd: Names) { Leads(cwd, Cleaned(path)) == Leads(cwd, path) }

  /** From every directory the cleaned text leads where the text does, if and only if the text never slips. */
  lemma RelativeMeaning(path: string)
    requires '\0' !in path
    ensures (forall cwd :: KeepsPlace(path, cwd)) <==> !Slipping(Parts(path))
  {
    RelativeParts(Parts(path));
    forall cwd ensures KeepsPlace(path, cwd) <==> SamePlace(Parts(path), cwd) {
      CleanedLeads(cwd, path);
      LeadsIsResolve(cwd, path);
    }
    if Slipping(Parts(path)) {
      var cwd :| !SamePlace(Parts(path), cwd);
      assert !KeepsPlace(path, cwd);
    }
  }

  /** A text with nothing to clean only gets a leading slash if it has none: `a/simple/path` becomes
      `/a/simple/path`. */
  lemma NothingToClean(path: string)
    requires '\0' !in path && Canonical(Parts(path))
    ensures Cleaned(path) == if Absolute(path) then path else ['/'] + path
  {
    PartsJoin(path);
    CanonicalIsKept(Parts(path));
  }

  /** Such a path: up, stay, up. It is cleaned to the start itself. */
  lemma SlippingExample()
    ensures var path := ".././.."; Slipping(Parts(path)) && Clean(Parts(path)).out == Nil
  {
    var path := ".././..";
    var up, dot := Sub(path, 0, 2), Sub(path, 3, 4);
    assert Sub(path, 5, 7) == up;
    var list := Snoc(Snoc(Snoc(Nil, up), dot), up);
    assert Split(Nil, path, 0, 0) == Split(Nil, path, 0, 2) == Split(Snoc(Nil, up), path, 3, 3);
    assert Split(list.init.init, path, 3, 3) == Split(list.init, path, 5, 5);
    assert Split(list.init, path, 5, 5) == Split(list.init, path, 5, 7) == list;
    assert Walked(list.init.init) == Walk(1, Nil) && Clean(list.init) == State(Snoc(Nil, up), false);
  }

  // ----- the buffer

  /** Drop the last part written: back up over it to its slash, then look at the part before. */
  method PopPart(dest: array<char>, at: nat, depth: nat, ghost out: Names) returns (d: nat, dotdot: bool)
    requires at < dest.Length && dest[at] == '\0'
    requires out.Snoc? && depth == Depth(out) && Named(out) && dest[..at] == Body(out)
    modifies dest
    ensures d < at && dest[d] == '\0'
    ensures dest[..d] == Body(out.init)
    ensures dotdot == EndsUp(out.init)
  {
    ghost var was := dest[..at];
    ghost var n := |Body(out.init)|;
    assert was[n] == '/';
    assert forall j | n < j < at :: was[j] == out.last[j - n - 1];
    d := at;
    while dest[d] != '/'
      invariant n <= d <= at
      invariant dest[..d] == was[..d]
      invariant d == at || dest[d] == was[d]
      invariant d == at ==> dest[d] == '\0'
      decreases d
    {
      dest[d] := '\0';
      d := d - 1;
    }
    dest[d] := '\0';
    assert dest[..d] == was[..n];
    if depth - 1 != 0 {
      dotdot := LastIsUp(dest, d, out.init);
    } else {
      dotdot := false;
    }
  }

  method LastIsUp(dest: array<char>, d: nat, ghost out: Names) returns (dotdot: bool)
    requires d < dest.Length && out.Snoc? && Named(out) && dest[..d] == Body(out)
    ensures dotdot == EndsUp(out)
  {
    ghost var n := |Body(out.init)|;
    assert dest[..d][n] == '/';
    assert forall j | n < j < d :: dest[j] == dest[..d][j] == out.last[j - n - 1];
    var s := d - 1;
    while dest[s] != '/'
      invariant n <= s < d && dest[n] == '/'
      decreases s
    {
      s := s - 1;
    }
    s := s + 1;
    dotdot := d - s == 2 && dest[s] == '.' && dest[s + 1] == '.';
    TwoDots(out.last);
  }

  lemma TwoDots(part: string)
    ensures IsUp(part) <==> |part| == 2 && part[0] == '.' && part[1] == '.'
    ensures IsDot(part) <==> |part| == 1 && part[0] == '.'
  {}

  method PushPart(dest: array<char>, at: nat, path: string, s: nat, e: nat, ghost out: Names) returns (d: nat)
    requires s <= e <= |path| && at + (e - s) + 1 < dest.Length
    requires dest[..at] == Body(out)
    modifies dest
    ensures d == at + 1 + (e - s) && dest[d] == '\0'
    ensures dest[..d] == Body(Snoc(out, Sub(path, s, e)))
  {
    dest[at] := '/';
    d := at + 1;
    var i := s;
    while i < e
      invariant s <= i <= e && d == at + 1 + (i - s)
      invariant dest[..d] == Body(out) + ['/'] + Sub(path, s, i)
    {
      dest[d] := path[i];
      d := d + 1;
      i := i + 1;
    }
    dest[d] := '\0';
  }

  /** The buffer holds what a state says. */
  ghost predicate Written(b: array<char>, d: nat, depth: nat, dotdot: bool, s: State)
    reads b
  {
    && d < b.Length && b[..d] == Body(s.out) && (depth > 0 ==> b[d] == '\0')
    && s.dotdot == dotdot && depth == Depth(s.out) && Named(s.out)
  }

  /** How far a path is read: the parts done and those still to split. */
  ghost predicate Read(path: string, i: nat, s: int, done: Names, all: Names) {
    if s < 0 then i == 0 && done == Nil && path != [] && path[0] == '/' && all == Split(Nil, path, 1, 1)
    else if i > |path| then all == done
    else s <= i && Plain(Sub(path, s, i)) && all == Split(done, path, s, i)
  }

  /** A character inside a part, or the slash that opens the first. */
  lemma ReadOn(path: string, i: nat, s: int, done: Names, all: Names)
    requires Read(path, i, s, done, all) && i < |path| && (s < 0 || path[i] != '/') && '\0' !in path
    ensures Read(path, i + 1, if s < 0 then i + 1 else s, done, all)
  {
    if s >= 0 { assert Sub(path, s, i + 1) == Sub(path, s, i) + [path[i]]; }
  }

  /** vfs_clean_path: the buffer, two longer than the path, is never overrun and ends up holding the
      cleaned parts. */
  method CleanPath(dest: array<char>, path: string) returns (depth: nat)
    requires '\0' !in path && dest.Length == |path| + 2
    modifies dest
    ensures Text(dest[..]) == Cleaned(path)
    ensures |Text(dest[..])| <= |path| + 1
    ensures depth == Depth(Clean(Parts(path)).out)
  {
    var d: nat, i, dotdot := 0, 0, false;
    depth := 0;
    var s: int := if path == [] || path[0] != '/' then 0 else -1;
    var stop := false;
    ghost var done, all, st := Nil, Parts(path), State(Nil, false);
    while !stop
      invariant 0 <= i <= |path| + 1 && stop == (i == |path| + 1) && -1 <= s <= i
      invariant Read(path, i, s, done, all)
      invariant d <= if s < 0 then 0 else s
      invariant depth == 0 ==> d == 0
      invariant st == Clean(done) && Written(dest, d, depth, dotdot, st)
      decreases |path| + 1 - i
    {
      if i < |path| && (s < 0 || path[i] != '/') { ReadOn(path, i, s, done, all); }
      var e := -1;
      if i == |path| {
        e := i;
        stop := true;
      } else if path[i] == '/' {
        if s == -1 {
          s := i + 1;
        } else {
          e := i;
        }
      }
      if s != -1 && e != -1 {
        depth, d, dotdot := OnePart(dest, d, depth, dotdot, path, s, e, st);
        done := Snoc(done, Sub(path, s, e));
        st := Clean(done);
        s := e + 1;
      }
      i := i + 1;
    }
    Finish(dest, d, depth, dotdot, st);
  }

  /** One part of the path, once its end is found. */
  method OnePart(dest: array<char>, at: nat, count: nat, prev: bool, path: string, s: nat, e: nat, ghost st: State)
    returns (depth: nat, d: nat, dotdot: bool)
    requires s <= e <= |path| && at <= s && dest.Length == |path| + 2
    requires Plain(Sub(path, s, e))
    requires Written(dest, at, count, prev, st) && (count == 0 ==> at == 0)
    modifies dest
    ensures d <= e + 1 && (depth == 0 ==> d == 0)
    ensures Written(dest, d, depth, dotdot, Step(st, Sub(path, s, e)))
  {
    var len := e - s;
    depth, d := count, at;
    var dot := len == 1 && path[s] == '.';
    dotdot := len == 2 && path[s] == '.' && path[s + 1] == '.';
    TwoDots(Sub(path, s, e));
    if dotdot && depth > 0 && !prev {
      d, dotdot := PopPart(dest, d, depth, st.out);
      depth := depth - 1;
    } else if !dot && len > 0 {
      d := PushPart(dest, d, path, s, e, st.out);
      depth := depth + 1;
    }
  }

  /** The empty path becomes the root. */
  method Finish(dest: array<char>, d: nat, depth: nat, ghost dotdot: bool, ghost s: State)
    requires Written(dest, d, depth, dotdot, s) && dest.Length >= 2 && (depth == 0 ==> d == 0)
    modifies dest
    ensures Text(dest[..]) == Render(s.out)
    ensures |Text(dest[..])| == if depth == 0 then 1 else d
  {
    BodyPlain(s.out);
    if depth == 0 {
      dest[0] := '/';
      dest[1] := '\0';
      TextIs(dest[..], 1);
    } else {
      TextIs(dest[..], d);
    }
  }

  /** A path from its text to the parts that are walked: cleaned into a buffer of its own, then read token by
      token. These are the cleaned parts of the path, as many as the depth that was counted. */
  method ReadPath(path: string) returns (parts: seq<string>, depth: nat)
    requires '\0' !in path
    ensures parts == Words(Clean(Parts(path)).out) && depth == |parts|
  {
    var dest := new char[|path| + 2];
    depth := CleanPath(dest, path);
    Idempotent(path);
    TokensOfRendered(Clean(Parts(path)).out);
    WordsOfCanonical(Clean(Parts(path)).out);
    parts := Tokens(Text(dest[..]));
  }
}
