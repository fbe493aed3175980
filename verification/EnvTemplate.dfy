/** Environment placeholders: a loop that replaces first occurrences, and the substitution it is meant to compute. */
module EnvTemplate {
  import opened Names
  import opened Text

  type Env = map<string, string>

  predicate IsBlank(c: char) {
    c == ' ' || c == '\t' || c == '\n' || c == '\r' || c as int == 12
  }

  function Blanks(s: string): (n: nat)
    ensures n <= |s|
  {
    if s != [] && IsBlank(s[0]) then 1 + Blanks(s[1..]) else 0
  }

  const OPENING := "{{env"
  const CLOSING := "\"}}"

  datatype Match = Match(full: string, name: string)

  /** The non-empty quoted name that s begins with, provided that the placeholder ends right after it. */
  function QuotedName(s: string): (r: Option<string>)
    ensures r.Some? ==> r.value != [] && |r.value| + 4 <= |s|
  {
    if s == [] || s[0] != '"' then None
    else
      var n := IndexOf(s[1..], '"');
      if n == 0 || !(CLOSING <= s[1 + n..]) then None else Some(s[1..1 + n])
  }

  /** Length of the placeholder that s begins with and the name in it: {{env "NAME"}} with at least one blank. */
  function PlaceholderAt(s: string): (r: Option<(nat, string)>)
    ensures r.Some? ==> 0 < r.value.0 <= |s| && s[0] == '{'
  {
    if !(OPENING <= s) then None
    else
      assert |OPENING| == 5 && s[0] == OPENING[0];
      var b := Blanks(s[5..]);
      var name := QuotedName(s[5 + b..]);
      if b == 0 || name.None? then None else Some((5 + b + |name.value| + 4, name.value))
  }

  function MatchAt(s: string): (r: Option<Match>)
    ensures r.Some? ==> 0 < |r.value.full| <= |s| && r.value.full == s[..|r.value.full|] && r.value.full[0] == '{'
  {
    var r := PlaceholderAt(s);
    if r.None? then None else Some(Match(s[..r.value.0], r.value.1))
  }

  /** All placeholders, leftmost first and without overlap. */
  function Matches(t: string): seq<Match> {
    if t == [] then []
    else
      var m := MatchAt(t);
      if m.Some? then [m.value] + Matches(t[|m.value.full|..]) else Matches(t[1..])
  }

  function ReplaceFirst(s: string, old_: string, new_: string): string {
    if old_ <= s then new_ + s[|old_|..]
    else if s == [] then []
    else [s[0]] + ReplaceFirst(s[1..], old_, new_)
  }

  predicate IsSet(env: Env, name: string) { name in env && env[name] != "" }

  predicate AllSet(env: Env, ms: seq<Match>) { forall i | 0 <= i < |ms| :: IsSet(env, ms[i].name) }

  function ReplaceAll(s: string, ms: seq<Match>, env: Env): string
    requires AllSet(env, ms)
    decreases |ms|
  {
    if ms == [] then s else ReplaceAll(ReplaceFirst(s, ms[0].full, env[ms[0].name]), ms[1..], env)
  }

  function Resolve(t: string, env: Env): string {
    if AllSet(env, Matches(t)) then ReplaceAll(t, Matches(t), env) else ""
  }

  method ResolveEnvTemplate(template: string, env: Env) returns (result: string)
    ensures result == Resolve(template, env)
  {
    result := template;
    var matches := Matches(template);
    for i := 0 to |matches|
      invariant AllSet(env, matches[..i])
      invariant AllSet(env, matches) ==> ReplaceAll(result, matches[i..], env) == ReplaceAll(template, matches, env)
    {
      var name := matches[i].name;
      if name !in env || env[name] == "" {
        return "";
      }
      assert matches[i..][1..] == matches[i + 1..];
      result := ReplaceFirst(result, matches[i].full, env[name]);
    }
  }

  // ---- The result is empty exactly when a variable is missing ----

  lemma {:induction false} ReplaceFirstNonEmpty(s: string, old_: string, new_: string)
    requires s != [] && new_ != []
    ensures ReplaceFirst(s, old_, new_) != []
  {
  }

  lemma {:induction false} ReplaceAllNonEmpty(s: string, ms: seq<Match>, env: Env)
    requires s != [] && AllSet(env, ms)
    ensures ReplaceAll(s, ms, env) != []
    decreases |ms|
  {
    if ms == [] {
    } else {
      ReplaceFirstNonEmpty(s, ms[0].full, env[ms[0].name]);
      ReplaceAllNonEmpty(ReplaceFirst(s, ms[0].full, env[ms[0].name]), ms[1..], env);
    }
  }

  /** For every template, whatever its text and the values look like. */
  lemma EmptyIffUnset(t: string, env: Env)
    requires t != ""
    ensures Resolve(t, env) == "" <==> !AllSet(env, Matches(t))
  {
    if AllSet(env, Matches(t)) { ReplaceAllNonEmpty(t, Matches(t), env); }
  }

  // ---- Every placeholder at its own position ----

  function Substitute(t: string, env: Env): string
    requires AllSet(env, Matches(t))
  {
    if t == [] then []
    else
      var m := MatchAt(t);
      if m.Some? then
        assert IsSet(env, Matches(t)[0].name);
        assert Matches(t)[1..] == Matches(t[|m.value.full|..]);
        env[m.value.name] + Substitute(t[|m.value.full|..], env)
      else [t[0]] + Substitute(t[1..], env)
  }

  lemma RestIsSet(t: string, env: Env)
    requires t != [] && AllSet(env, Matches(t))
    ensures
      var m := MatchAt(t);
      if m.Some? then IsSet(env, m.value.name) && AllSet(env, Matches(t[|m.value.full|..]))
      else AllSet(env, Matches(t[1..]))
  {
    var m := MatchAt(t);
    if m.Some? {
      assert Matches(t)[0] == m.value;
      assert Matches(t)[1..] == Matches(t[|m.value.full|..]);
    }
  }

  // ---- Where the loop strikes, and where it should ----

  /** Where `part` first occurs in s, or |s| when it does not. */
  function Find(s: string, part: string): nat {
    if part <= s || s == [] then 0 else 1 + Find(s[1..], part)
  }

  /** The positions at which the successive replacements of the loop strike. */
  function Hits(s: string, ms: seq<Match>, env: Env): seq<nat>
    requires AllSet(env, ms)
    decreases |ms|
  {
    if ms == [] then []
    else [Find(s, ms[0].full)] + Hits(ReplaceFirst(s, ms[0].full, env[ms[0].name]), ms[1..], env)
  }

  /** The placeholders' own positions, once p stands before t and the placeholders to the left are substituted. */
  function Own(p: string, t: string, env: Env): seq<nat>
    requires AllSet(env, Matches(t))
    decreases |t|
  {
    if t == [] then []
    else
      var m := MatchAt(t);
      RestIsSet(t, env);
      if m.Some? then [|p|] + Own(p + env[m.value.name], t[|m.value.full|..], env) else Own(p + [t[0]], t[1..], env)
  }

  /** `part` written after p occurs nowhere further left, not even overlapping itself. */
  predicate Fresh(p: string, part: string) {
    forall i | 0 <= i < |p| :: !(part <= (p + part)[i..])
  }

  /** No placeholder occurs earlier in what is substituted before it: a matter of template and environment alone. */
  predicate Lands(p: string, t: string, env: Env)
    requires AllSet(env, Matches(t))
    decreases |t|
  {
    t == [] ||
    var m := MatchAt(t);
    RestIsSet(t, env);
    if m.Some? then
      Fresh(p, m.value.full) && Lands(p + env[m.value.name], t[|m.value.full|..], env)
    else Lands(p + [t[0]], t[1..], env)
  }

  /** An occurrence that begins in p ends within p + part, so what follows is irrelevant. */
  lemma OccursEarly(p: string, part: string, rest: string, i: nat)
    requires i < |p|
    ensures part <= (p + part)[i..] <==> part <= (p + part + rest)[i..]
  {
    var short, long := (p + part)[i..], (p + part + rest)[i..];
    assert long == short + rest;
    assert |short| >= |part|;
    assert long[..|part|] == short[..|part|];
  }

  lemma {:induction false} FindBounds(s: string, part: string, i: nat)
    requires i <= |s| && part <= s[i..]
    ensures Find(s, part) <= i
    ensures (forall j | 0 <= j < i :: !(part <= s[j..])) ==> Find(s, part) == i
    decreases |s|
  {
    if part <= s || s == [] {
      assert s[0..] == s;
    } else {
      assert i > 0 by { assert s[0..] == s; }
      assert forall j | 0 <= j < |s| :: s[1..][j..] == s[j + 1..];
      assert s[1..][i - 1..] == s[i..];
      FindBounds(s[1..], part, i - 1);
    }
  }

  /** A replacement strikes right after p exactly when its text is fresh there. */
  lemma StrikesIffFresh(p: string, part: string, rest: string)
    ensures Find(p + part + rest, part) == |p| <==> Fresh(p, part)
  {
    var s := p + part + rest;
    assert s[|p|..] == part + rest;
    forall i | 0 <= i < |p| ensures part <= (p + part)[i..] <==> part <= s[i..] { OccursEarly(p, part, rest, i); }
    FindBounds(s, part, |p|);
    if !Fresh(p, part) {
      var i :| 0 <= i < |p| && part <= (p + part)[i..];
      FindBounds(s, part, i);
    }
  }

  lemma {:induction false} ReplaceAtFind(s: string, part: string, v: string, i: nat)
    requires i + |part| <= |s| && part <= s[i..] && Find(s, part) == i
    ensures ReplaceFirst(s, part, v) == s[..i] + v + s[i + |part|..]
    decreases |s|
  {
    if part <= s || s == [] {
    } else {
      assert s[1..][i - 1..] == s[i..] && s[1..][i - 1 + |part|..] == s[i + |part|..];
      ReplaceAtFind(s[1..], part, v, i - 1);
      assert [s[0]] + s[1..][..i - 1] == s[..i];
    }
  }

  lemma ReplaceFresh(p: string, part: string, rest: string, v: string)
    requires Fresh(p, part)
    ensures ReplaceFirst(p + part + rest, part, v) == p + v + rest
  {
    var s := p + part + rest;
    StrikesIffFresh(p, part, rest);
    assert s[|p|..] == part + rest && s[..|p|] == p && s[|p| + |part|..] == rest;
    ReplaceAtFind(s, part, v, |p|);
  }

  lemma ConcatAssociates(a: string, b: string, c: string)
    ensures a + b + c == a + (b + c)
  {
  }

  /** Behind p, the loop strikes every placeholder at its own position exactly when every one lands. */
  lemma {:induction false} HitsOwnIffLands(p: string, t: string, env: Env)
    requires AllSet(env, Matches(t))
    ensures Hits(p + t, Matches(t), env) == Own(p, t, env) <==> Lands(p, t, env)
    decreases |t|
  {
    if t == [] {
    } else {
      var m := MatchAt(t);
      RestIsSet(t, env);
      if m.Some? {
        var full, rest, v := m.value.full, t[|m.value.full|..], env[m.value.name];
        assert Matches(t)[1..] == Matches(rest);
        assert t == full + rest;
        ConcatAssociates(p, full, rest);
        StrikesIffFresh(p, full, rest);
        if Fresh(p, full) {
          ReplaceFresh(p, full, rest, v);
          HitsOwnIffLands(p + v, rest, env);
          HeadsAndTails(|p|, Hits(p + v + rest, Matches(rest), env), |p|, Own(p + v, rest, env));
        } else {
          assert Hits(p + t, Matches(t), env)[0] != Own(p, t, env)[0];
        }
      } else {
        assert t == [t[0]] + t[1..];
        ConcatAssociates(p, [t[0]], t[1..]);
        HitsOwnIffLands(p + [t[0]], t[1..], env);
      }
    }
  }

  lemma HeadsAndTails(x: nat, xs: seq<nat>, y: nat, ys: seq<nat>)
    ensures [x] + xs == [y] + ys <==> x == y && xs == ys
  {
    assert ([x] + xs)[0] == x && ([y] + ys)[0] == y;
    assert ([x] + xs)[1..] == xs && ([y] + ys)[1..] == ys;
  }

  lemma {:induction false} LandedReplacements(p: string, t: string, env: Env)
    requires AllSet(env, Matches(t)) && Lands(p, t, env)
    ensures ReplaceAll(p + t, Matches(t), env) == p + Substitute(t, env)
    decreases |t|
  {
    if t == [] {
    } else {
      var m := MatchAt(t);
      RestIsSet(t, env);
      if m.Some? {
        var full, rest, v := m.value.full, t[|m.value.full|..], env[m.value.name];
        assert Matches(t)[1..] == Matches(rest);
        assert t == full + rest;
        ConcatAssociates(p, full, rest);
        ReplaceFresh(p, full, rest, v);
        LandedReplacements(p + v, rest, env);
        ConcatAssociates(p, v, Substitute(rest, env));
      } else {
        assert t == [t[0]] + t[1..];
        ConcatAssociates(p, [t[0]], t[1..]);
        LandedReplacements(p + [t[0]], t[1..], env);
        ConcatAssociates(p, [t[0]], Substitute(t[1..], env));
      }
    }
  }

  /**
   * The sequential loop strikes every placeholder where it stands exactly when no placeholder's text occurs in what
   * is substituted before it; then it refines simultaneous substitution.
   */
  lemma LoopIsInPlaceIff(t: string, env: Env)
    requires AllSet(env, Matches(t))
    ensures Hits(t, Matches(t), env) == Own([], t, env) <==> Lands([], t, env)
    ensures Lands([], t, env) ==> Resolve(t, env) == Substitute(t, env)
  {
    assert [] + t == t;
    HitsOwnIffLands([], t, env);
    if Lands([], t, env) {
      LandedReplacements([], t, env);
      assert [] + Substitute(t, env) == Substitute(t, env);
    }
  }

  /** No opening brace in the literal text before the last placeholder. */
  predicate PlainText(t: string) {
    t == [] ||
    var m := MatchAt(t);
    if m.Some? then PlainText(t[|m.value.full|..]) else (t[0] != '{' || Matches(t) == []) && PlainText(t[1..])
  }

  predicate PlainValues(env: Env, ms: seq<Match>)
    requires AllSet(env, ms)
  {
    forall i | 0 <= i < |ms| :: '{' !in env[ms[i].name]
  }

  lemma {:induction false} NothingLands(p: string, t: string, env: Env)
    requires Matches(t) == []
    ensures Lands(p, t, env)
    decreases |t|
  {
    if t == [] {
    } else {
      NothingLands(p + [t[0]], t[1..], env);
    }
  }

  lemma PlainPrefixIsFresh(p: string, part: string)
    requires '{' !in p && part != [] && part[0] == '{'
    ensures Fresh(p, part)
  {
    forall i | 0 <= i < |p| ensures !(part <= (p + part)[i..]) {
      assert (p + part)[i..][0] == p[i] && p[i] in p;
    }
  }

  lemma {:induction false} PlainLands(p: string, t: string, env: Env)
    requires '{' !in p && PlainText(t)
    requires AllSet(env, Matches(t)) && PlainValues(env, Matches(t))
    ensures Lands(p, t, env)
    decreases |t|
  {
    if Matches(t) == [] {
      NothingLands(p, t, env);
    } else {
      var m := MatchAt(t);
      RestIsSet(t, env);
      if m.Some? {
        var rest := t[|m.value.full|..];
        assert Matches(t)[0] == m.value;
        assert forall i | 0 <= i < |Matches(rest)| :: Matches(rest)[i] == Matches(t)[i + 1];
        PlainPrefixIsFresh(p, m.value.full);
        PlainLands(p + env[m.value.name], rest, env);
      } else {
        PlainLands(p + [t[0]], t[1..], env);
      }
    }
  }

  /** In particular when the values and the text before the last placeholder hold no opening brace. */
  lemma ResolveIsSubstitution(t: string, env: Env)
    requires PlainText(t) && AllSet(env, Matches(t)) && PlainValues(env, Matches(t))
    ensures Resolve(t, env) == Substitute(t, env)
  {
    PlainLands([], t, env);
    LoopIsInPlaceIff(t, env);
  }

  // ---- Placeholders as printed, and a value that looks like one ----

  function Placeholder(name: string): string { OPENING + " \"" + name + CLOSING }

  lemma QuotedNameRead(name: string, rest: string)
    requires name != [] && '"' !in name
    ensures QuotedName(['"'] + name + CLOSING + rest) == Some(name)
  {
    var s := ['"'] + name + CLOSING + rest;
    assert s[1..] == name + (CLOSING + rest);
    IndexOfAfter(name, CLOSING + rest, '"');
    assert s[1 + |name|..] == CLOSING + rest;
    assert s[1..1 + |name|] == name;
  }

  lemma PlaceholderMatches(name: string, rest: string)
    requires name != [] && '"' !in name
    ensures MatchAt(Placeholder(name) + rest) == Some(Match(Placeholder(name), name))
  {
    var s := Placeholder(name) + rest;
    var tail := ['"'] + name + CLOSING + rest;
    assert |OPENING| == 5 && s == OPENING + ([' '] + tail);
    assert s[5..] == [' '] + tail && s[6..] == tail;
    assert s[5..][1..] == tail;
    assert Blanks(tail) == 0;
    QuotedNameRead(name, rest);
    assert s[..5 + 1 + |name| + 4] == Placeholder(name);
  }

  lemma TwoPlaceholders(a: string, b: string)
    requires a != [] && b != [] && '"' !in a && '"' !in b
    ensures Matches(Placeholder(b)) == [Match(Placeholder(b), b)]
    ensures Matches(Placeholder(a) + Placeholder(b)) == [Match(Placeholder(a), a), Match(Placeholder(b), b)]
  {
    var pa, pb := Placeholder(a), Placeholder(b);
    PlaceholderMatches(a, pb);
    PlaceholderMatches(b, []);
    assert pb + [] == pb && (pa + pb)[|pa|..] == pb && pb[|pb|..] == [];
  }

  lemma ReplaceFront(m: string, rest: string, v: string)
    ensures ReplaceFirst(m + rest, m, v) == v + rest
  {
    assert (m + rest)[..|m|] == m && (m + rest)[|m|..] == rest;
  }

  /** If a value is itself a placeholder, a later replacement hits it instead of its own position. */
  lemma ValueIsReplacedAgain(a: string, b: string, v: string)
    requires a != [] && b != [] && a != b && '"' !in a && '"' !in b && v != [] && v[0] != '{'
    ensures
      var t, env := Placeholder(a) + Placeholder(b), map[a := Placeholder(b), b := v];
      && AllSet(env, Matches(t))
      && Resolve(t, env) == v + Placeholder(b)
      && Substitute(t, env) == Placeholder(b) + v
      && Resolve(t, env) != Substitute(t, env)
  {
    var pa, pb := Placeholder(a), Placeholder(b);
    var t, env := pa + pb, map[a := pb, b := v];
    TwoPlaceholders(a, b);
    ReplaceTwo(Match(pa, a), Match(pb, b), v, env);
    SubstituteTwo(a, b, env);
    assert (v + pb)[0] != (pb + v)[0];
  }

  lemma ReplaceTwo(m: Match, n: Match, v: string, env: Env)
    requires m.full != [] && n.full != [] && v != []
    requires m.name in env && n.name in env && env[m.name] == n.full && env[n.name] == v
    ensures AllSet(env, [m, n]) && ReplaceAll(m.full + n.full, [m, n], env) == v + n.full
  {
    assert [m, n][1..] == [n] && [n][1..] == [];
    ReplaceFront(m.full, n.full, n.full);
    ReplaceFront(n.full, n.full, v);
    assert ReplaceAll(n.full + n.full, [n], env) == ReplaceAll(v + n.full, [], env);
  }

  lemma SubstituteFront(name: string, rest: string, env: Env)
    requires name != [] && '"' !in name && IsSet(env, name) && AllSet(env, Matches(rest))
    ensures AllSet(env, Matches(Placeholder(name) + rest))
    ensures Substitute(Placeholder(name) + rest, env) == env[name] + Substitute(rest, env)
  {
    PlaceholderMatches(name, rest);
    assert (Placeholder(name) + rest)[|Placeholder(name)|..] == rest;
    assert Matches(Placeholder(name) + rest) == [Match(Placeholder(name), name)] + Matches(rest);
  }

  lemma SubstituteTwo(a: string, b: string, env: Env)
    requires a != [] && b != [] && '"' !in a && '"' !in b && IsSet(env, a) && IsSet(env, b)
    ensures AllSet(env, Matches(Placeholder(a) + Placeholder(b)))
    ensures Substitute(Placeholder(a) + Placeholder(b), env) == env[a] + env[b]
  {
    SubstituteFront(b, [], env);
    assert Placeholder(b) + [] == Placeholder(b);
    SubstituteFront(a, Placeholder(b), env);
  }

  /** A misplaced replacement can still give the right text, if by accident: here it replaces a text by itself. */
  lemma MisplacedCanAgree(a: string, b: string)
    requires a != [] && b != [] && a != b && '"' !in a && '"' !in b
    ensures
      var t, env := Placeholder(a) + Placeholder(b), map[a := Placeholder(b), b := Placeholder(b)];
      && AllSet(env, Matches(t))
      && Resolve(t, env) == Substitute(t, env) && !Lands([], t, env)
  {
    var pa, pb := Placeholder(a), Placeholder(b);
    var t, env := pa + pb, map[a := pb, b := pb];
    TwoPlaceholders(a, b);
    ReplaceTwo(Match(pa, a), Match(pb, b), pb, env);
    SubstituteTwo(a, b, env);
    StaleAfterItself(a, b, env);
  }

  lemma LandsFront(p: string, name: string, rest: string, env: Env)
    requires name != [] && '"' !in name && IsSet(env, name) && AllSet(env, Matches(rest))
    ensures AllSet(env, Matches(Placeholder(name) + rest))
    ensures Lands(p, Placeholder(name) + rest, env) <==> Fresh(p, Placeholder(name)) && Lands(p + env[name], rest, env)
  {
    SubstituteFront(name, rest, env);
    PlaceholderMatches(name, rest);
    assert (Placeholder(name) + rest)[|Placeholder(name)|..] == rest;
  }

  lemma StaleAfterItself(a: string, b: string, env: Env)
    requires a != [] && b != [] && '"' !in a && '"' !in b && IsSet(env, a) && IsSet(env, b) && env[a] == Placeholder(b)
    ensures AllSet(env, Matches(Placeholder(a) + Placeholder(b))) && !Lands([], Placeholder(a) + Placeholder(b), env)
  {
    var pb := Placeholder(b);
    LandsFront(pb, b, [], env);
    assert pb + [] == pb && [] + pb == pb;
    assert !Fresh(pb, pb) by { assert (pb + pb)[0..] == pb + pb; }
    LandsFront([], a, pb, env);
  }

  // ---- Literal text that a value completes to a placeholder ----

  /** What a placeholder begins with, up to its name. */
  const LEAD := OPENING + " \""

  lemma Prepended(c: char, s: string, rest: string, env: Env)
    requires MatchAt([c] + s).None? && Matches(s) == Matches(rest)
    ensures Matches([c] + s) == Matches(rest)
    ensures AllSet(env, Matches(rest)) ==> Substitute([c] + s, env) == [c] + Substitute(s, env)
  {
    assert ([c] + s)[1..] == s;
  }

  lemma {:induction false} UnmatchedText(g: string, rest: string, env: Env)
    requires forall i | 0 <= i < |g| :: MatchAt((g + rest)[i..]).None?
    ensures Matches(g + rest) == Matches(rest)
    ensures AllSet(env, Matches(rest)) ==> Substitute(g + rest, env) == g + Substitute(rest, env)
    decreases |g|
  {
    if g == [] {
      assert g + rest == rest;
      if AllSet(env, Matches(rest)) { assert g + Substitute(rest, env) == Substitute(rest, env); }
    } else {
      var c, g' := g[0], g[1..];
      UnmatchedRest(g, rest);
      UnmatchedText(g', rest, env);
      Prepended(c, g' + rest, rest, env);
      if AllSet(env, Matches(rest)) {
        assert g == [c] + g';
        ConcatAssociates([c], g', Substitute(rest, env));
      }
    }
  }

  lemma UnmatchedRest(g: string, rest: string)
    requires g != [] && forall i | 0 <= i < |g| :: MatchAt((g + rest)[i..]).None?
    ensures g + rest == [g[0]] + (g[1..] + rest)
    ensures MatchAt([g[0]] + (g[1..] + rest)).None?
    ensures forall i | 0 <= i < |g[1..]| :: MatchAt((g[1..] + rest)[i..]).None?
  {
    var s, s' := g + rest, g[1..] + rest;
    assert s[0..] == s == [g[0]] + s';
    assert forall i | 0 <= i < |g| - 1 :: s'[i..] == s[i + 1..];
  }

  lemma ClosingIsUnmatched(rest: string, env: Env)
    ensures Matches(CLOSING + rest) == Matches(rest)
    ensures AllSet(env, Matches(rest)) ==> Substitute(CLOSING + rest, env) == CLOSING + Substitute(rest, env)
  {
    forall i | 0 <= i < |CLOSING| ensures MatchAt((CLOSING + rest)[i..]).None? {
      assert (CLOSING + rest)[i..][0] == CLOSING[i];
    }
    UnmatchedText(CLOSING, rest, env);
  }

  lemma LeadIsNoName(x: string, rest: string)
    requires x != [] && x[0] != '}'
    ensures QuotedName(['"'] + (Placeholder(x) + rest)).None?
  {
    var tail, name, behind := Placeholder(x) + rest, OPENING + [' '], ['"'] + x + CLOSING + rest;
    var quoted := ['"'] + tail;
    assert tail == name + behind;
    IndexOfAfter(name, behind, '"');
    assert quoted[1..] == tail && quoted[1 + |name|..] == behind;
    assert behind[1] == x[0] != CLOSING[1];
  }

  lemma LeadIsNoMatch(x: string, rest: string)
    requires x != [] && x[0] != '}'
    ensures MatchAt(LEAD + (Placeholder(x) + rest)).None?
  {
    var tail := Placeholder(x) + rest;
    var s, quoted := LEAD + tail, ['"'] + tail;
    assert |OPENING| == 5 && |LEAD| == 7;
    assert s[5..] == [' '] + quoted && s[5..][1..] == quoted && s[6..] == quoted;
    assert Blanks(quoted) == 0;
    LeadIsNoName(x, rest);
  }

  lemma LeadIsUnmatched(x: string, rest: string, env: Env)
    requires x != [] && x[0] != '}'
    ensures Matches(LEAD + (Placeholder(x) + rest)) == Matches(Placeholder(x) + rest)
    ensures AllSet(env, Matches(Placeholder(x) + rest)) ==>
              Substitute(LEAD + (Placeholder(x) + rest), env) == LEAD + Substitute(Placeholder(x) + rest, env)
  {
    var tail := Placeholder(x) + rest;
    var s := LEAD + tail;
    assert |LEAD| == 7 && tail[0] == '{';
    forall i | 0 <= i < |LEAD| ensures MatchAt(s[i..]).None? {
      if i == 0 {
        assert s[0..] == s;
        LeadIsNoMatch(x, rest);
      } else {
        assert s[i..][0] == LEAD[i] && s[i..][1] == s[i + 1];
        assert i == 1 ==> s[2] == 'e';
        assert OPENING[0] == OPENING[1] == '{';
      }
    }
    UnmatchedText(LEAD, tail, env);
  }

  lemma LeadIsFresh(x: string)
    requires x != [] && x[0] != '{'
    ensures Fresh(LEAD, Placeholder(x))
  {
    var part := Placeholder(x);
    assert |LEAD| == 7 && part == LEAD + (x + CLOSING);
    forall i | 0 <= i < |LEAD| ensures !(part <= (LEAD + part)[i..]) {
      var s := (LEAD + part)[i..];
      if i == 0 {
        assert s[7] == part[0] == '{' && part[7] == x[0];
      } else {
        assert s[0] == LEAD[i] && s[1] == (LEAD + part)[i + 1];
        assert i == 1 ==> s[1] == 'e';
        assert part[0] == part[1] == '{';
      }
    }
  }

  /** No value holds a brace, and yet a value completes a literal to a placeholder that a later replacement hits. */
  lemma LiteralBecomesPlaceholder(x: string, a: string, v: string)
    requires x != [] && a != [] && x != a && '"' !in x && '"' !in a && x[0] != '{' && x[0] != '}'
    requires v != [] && '{' !in v && '{' !in a
    ensures
      var t, env := LEAD + (Placeholder(x) + (CLOSING + Placeholder(a))), map[x := a, a := v];
      && AllSet(env, Matches(t)) && PlainValues(env, Matches(t))
      && Resolve(t, env) == v + Placeholder(a)
      && Substitute(t, env) == Placeholder(a) + v
      && Resolve(t, env) != Substitute(t, env)
  {
    var t, env := LEAD + (Placeholder(x) + (CLOSING + Placeholder(a))), map[x := a, a := v];
    CompletedMatches(x, a, env);
    CompletedSubstitution(x, a, env);
    CompletedReplacements(x, a, v, env);
    PlaceholderAround(a, v);
  }

  lemma PlaceholderAround(a: string, v: string)
    requires v != [] && v[0] != '{'
    ensures LEAD + (a + (CLOSING + v)) == Placeholder(a) + v
    ensures v + Placeholder(a) != Placeholder(a) + v
  {
    assert (v + Placeholder(a))[0] == v[0] && (Placeholder(a) + v)[0] == '{';
  }

  lemma CompletedSubstitution(x: string, a: string, env: Env)
    requires x != [] && a != [] && '"' !in x && '"' !in a && x[0] != '}' && IsSet(env, x) && IsSet(env, a)
    ensures
      var t := LEAD + (Placeholder(x) + (CLOSING + Placeholder(a)));
      AllSet(env, Matches(t)) && Substitute(t, env) == LEAD + (env[x] + (CLOSING + env[a]))
  {
    var pa := Placeholder(a);
    SubstituteFront(a, [], env);
    assert pa + [] == pa && env[a] + [] == env[a];
    ClosingIsUnmatched(pa, env);
    SubstituteFront(x, CLOSING + pa, env);
    LeadIsUnmatched(x, CLOSING + pa, env);
  }

  lemma CompletedMatches(x: string, a: string, env: Env)
    requires x != [] && a != [] && '"' !in x && '"' !in a && x[0] != '}'
    ensures Matches(LEAD + (Placeholder(x) + (CLOSING + Placeholder(a)))) ==
              [Match(Placeholder(x), x), Match(Placeholder(a), a)]
  {
    var px, pa := Placeholder(x), Placeholder(a);
    var rest := CLOSING + pa;
    PlaceholderMatches(x, rest);
    PlaceholderMatches(a, []);
    assert pa + [] == pa && (px + rest)[|px|..] == rest && pa[|pa|..] == [];
    assert Matches(pa) == [Match(pa, a)];
    ClosingIsUnmatched(pa, env);
    LeadIsUnmatched(x, rest, env);
  }

  lemma CompletedReplacements(x: string, a: string, v: string, env: Env)
    requires x != [] && a != [] && x[0] != '{' && v != []
    requires x in env && a in env && env[x] == a && env[a] == v
    ensures
      var ms := [Match(Placeholder(x), x), Match(Placeholder(a), a)];
      && AllSet(env, ms)
      && ReplaceAll(LEAD + (Placeholder(x) + (CLOSING + Placeholder(a))), ms, env) == v + Placeholder(a)
  {
    var px, pa := Placeholder(x), Placeholder(a);
    var m, n, rest := Match(px, x), Match(pa, a), CLOSING + pa;
    assert [m, n][1..] == [n] && [n][1..] == [];
    LeadIsFresh(x);
    ConcatAssociates(LEAD, px, rest);
    ReplaceFresh(LEAD, px, rest, a);
    assert LEAD + a + rest == pa + pa;
    ReplaceFront(pa, pa, v);
    assert ReplaceAll(pa + pa, [n], env) == ReplaceAll(v + pa, [], env);
  }

  // ---- Exactly which texts are placeholders ----

  /** Tab, line feed, form feed, carriage return and blank. */
  predicate AllBlank(b: string) { forall i | 0 <= i < |b| :: b[i] as int in {9, 10, 12, 13, 32} }

  ghost predicate IsPlaceholder(full: string, name: string) {
    && name != [] && '"' !in name
    && exists b | b != [] && AllBlank(b) :: full == "{{env" + b + "\"" + name + "\"}}"
  }

  lemma {:induction false} BlanksEnd(s: string)
    ensures AllBlank(s[..Blanks(s)]) && (Blanks(s) < |s| ==> !IsBlank(s[Blanks(s)]))
  {
    if s == [] || !IsBlank(s[0]) {
    } else {
      BlanksEnd(s[1..]);
      assert s[..Blanks(s)] == [s[0]] + s[1..][..Blanks(s[1..])];
    }
  }

  lemma {:induction false} BlanksOf(b: string, rest: string)
    requires AllBlank(b) && (rest == [] || !IsBlank(rest[0]))
    ensures Blanks(b + rest) == |b|
    decreases |b|
  {
    if b == [] {
      assert b + rest == rest;
    } else {
      assert (b + rest)[1..] == b[1..] + rest;
      BlanksOf(b[1..], rest);
    }
  }

  lemma QuotedNameSplits(s: string)
    requires QuotedName(s).Some?
    ensures
      var name := QuotedName(s).value;
      '"' !in name && "\"" + name + "\"}}" <= s
  {
    var n := IndexOf(s[1..], '"');
    IndexOfIsFirst(s[1..], '"');
    assert s[1..][..n] == s[1..1 + n];
    assert s == [s[0]] + s[1..1 + n] + s[1 + n..];
  }

  lemma MatchIsPlaceholder(s: string)
    requires MatchAt(s).Some?
    ensures MatchAt(s).value.full <= s && IsPlaceholder(MatchAt(s).value.full, MatchAt(s).value.name)
  {
    var m, n := MatchAt(s).value, Blanks(s[5..]);
    var b, tail := s[5..][..n], s[5 + n..];
    BlanksEnd(s[5..]);
    QuotedNameSplits(tail);
    assert |OPENING| == 5 && s == s[..5] + b + tail && s[..5] == OPENING;
    var quoted := "\"" + m.name + "\"}}";
    assert tail[..|quoted|] == quoted;
    assert m.full == OPENING + b + quoted;
    assert OPENING + b + quoted == "{{env" + b + "\"" + m.name + "\"}}";
  }

  lemma PlaceholderIsMatched(b: string, name: string, rest: string)
    requires b != [] && AllBlank(b) && name != [] && '"' !in name
    ensures
      var full := "{{env" + b + "\"" + name + "\"}}";
      MatchAt(full + rest) == Some(Match(full, name))
  {
    var full := "{{env" + b + "\"" + name + "\"}}";
    var s, tail := full + rest, ['"'] + name + CLOSING + rest;
    assert |OPENING| == 5 && s == OPENING + (b + tail);
    assert s[..5] == OPENING && s[5..] == b + tail && s[5 + |b|..] == tail;
    BlanksOf(b, tail);
    QuotedNameRead(name, rest);
    assert s[..5 + |b| + |name| + 4] == full;
  }

  /** A text begins with a placeholder, and with which one, exactly as the pattern says. */
  lemma MatchAtIff(s: string, m: Match)
    ensures MatchAt(s) == Some(m) <==> m.full <= s && IsPlaceholder(m.full, m.name)
  {
    if MatchAt(s) == Some(m) {
      MatchIsPlaceholder(s);
    }
    if m.full <= s && IsPlaceholder(m.full, m.name) {
      var b :| b != [] && AllBlank(b) && m.full == "{{env" + b + "\"" + m.name + "\"}}";
      assert s == m.full + s[|m.full|..];
      PlaceholderIsMatched(b, m.name, s[|m.full|..]);
    }
  }

  // ---- Templates printed from their parts ----

  datatype Part = Literal(text: string) | Variable(blanks: string, name: string)

  function PrintPart(part: Part): string {
    match part
    case Literal(text) => text
    case Variable(blanks, name) => "{{env" + blanks + "\"" + name + "\"}}"
  }

  function PrintTemplate(parts: seq<Part>): string {
    if parts == [] then [] else PrintPart(parts[0]) + PrintTemplate(parts[1..])
  }

  predicate Proper(part: Part) {
    match part
    case Literal(text) => '{' !in text
    case Variable(blanks, name) => blanks != [] && AllBlank(blanks) && name != [] && '"' !in name
  }

  predicate Settable(part: Part, env: Env) { part.Variable? ==> IsSet(env, part.name) }

  /** Every variable replaced by its value, part by part. */
  function Fill(parts: seq<Part>, env: Env): string
    requires forall i | 0 <= i < |parts| :: Settable(parts[i], env)
  {
    if parts == [] then []
    else
      assert Settable(parts[0], env);
      (match parts[0] case Literal(text) => text case Variable(_, name) => env[name]) + Fill(parts[1..], env)
  }

  function Variables(parts: seq<Part>): seq<Match> {
    if parts == [] then []
    else
      (match parts[0] case Literal(_) => [] case Variable(_, name) => [Match(PrintPart(parts[0]), name)])
      + Variables(parts[1..])
  }

  lemma LiteralIsUnmatched(text: string, rest: string, env: Env)
    requires '{' !in text
    ensures Matches(text + rest) == Matches(rest)
    ensures AllSet(env, Matches(rest)) ==> Substitute(text + rest, env) == text + Substitute(rest, env)
  {
    forall i | 0 <= i < |text| ensures MatchAt((text + rest)[i..]).None? {
      assert (text + rest)[i..][0] == text[i];
    }
    UnmatchedText(text, rest, env);
  }

  lemma VariableIsMatched(part: Part, rest: string, env: Env)
    requires part.Variable? && Proper(part)
    ensures MatchAt(PrintPart(part) + rest) == Some(Match(PrintPart(part), part.name))
    ensures (PrintPart(part) + rest)[|PrintPart(part)|..] == rest
    ensures Matches(PrintPart(part) + rest) == [Match(PrintPart(part), part.name)] + Matches(rest)
    ensures IsSet(env, part.name) && AllSet(env, Matches(rest)) ==>
              && AllSet(env, Matches(PrintPart(part) + rest))
              && Substitute(PrintPart(part) + rest, env) == env[part.name] + Substitute(rest, env)
  {
    var full := PrintPart(part);
    PlaceholderIsMatched(part.blanks, part.name, rest);
    assert (full + rest)[|full|..] == rest;
    assert Matches(full + rest) == [Match(full, part.name)] + Matches(rest);
  }

  /** The placeholders of a printed template are its variables, in order. */
  lemma {:induction false} TemplateRead(parts: seq<Part>)
    requires forall i | 0 <= i < |parts| :: Proper(parts[i])
    ensures Matches(PrintTemplate(parts)) == Variables(parts)
  {
    if parts == [] {
    } else {
      var part, rest := parts[0], PrintTemplate(parts[1..]);
      TemplateRead(parts[1..]);
      if part.Literal? {
        LiteralIsUnmatched(part.text, rest, map[]);
        assert [] + Variables(parts[1..]) == Variables(parts[1..]);
      } else {
        VariableIsMatched(part, rest, map[]);
      }
    }
  }

  lemma {:induction false} TemplateFilled(parts: seq<Part>, env: Env)
    requires forall i | 0 <= i < |parts| :: Proper(parts[i]) && Settable(parts[i], env)
    ensures AllSet(env, Matches(PrintTemplate(parts)))
    ensures Substitute(PrintTemplate(parts), env) == Fill(parts, env)
  {
    if parts == [] {
    } else {
      var part, rest := parts[0], PrintTemplate(parts[1..]);
      TemplateFilled(parts[1..], env);
      if part.Literal? {
        LiteralIsUnmatched(part.text, rest, env);
      } else {
        VariableIsMatched(part, rest, env);
      }
    }
  }

  lemma {:induction false} PlainTextBehind(text: string, rest: string)
    requires '{' !in text && PlainText(rest)
    ensures PlainText(text + rest)
    decreases |text|
  {
    if text == [] {
      assert text + rest == rest;
    } else {
      assert (text + rest)[1..] == text[1..] + rest;
      PlainTextBehind(text[1..], rest);
    }
  }

  lemma {:induction false} TemplateIsPlain(parts: seq<Part>)
    requires forall i | 0 <= i < |parts| :: Proper(parts[i])
    ensures PlainText(PrintTemplate(parts))
  {
    if parts == [] {
    } else {
      TemplateIsPlain(parts[1..]);
      if parts[0].Literal? {
        PlainTextBehind(parts[0].text, PrintTemplate(parts[1..]));
      } else {
        VariableIsMatched(parts[0], PrintTemplate(parts[1..]), map[]);
      }
    }
  }

  lemma FirstAndRest(m: Match, ms: seq<Match>, env: Env)
    ensures AllSet(env, [m] + ms) <==> IsSet(env, m.name) && AllSet(env, ms)
    ensures AllSet(env, [m] + ms) ==>
              (PlainValues(env, [m] + ms) <==> '{' !in env[m.name] && PlainValues(env, ms))
  {
    assert ([m] + ms)[0] == m && forall i | 0 <= i < |ms| :: ([m] + ms)[i + 1] == ms[i];
  }

  predicate PlainlySet(part: Part, env: Env) { Settable(part, env) && (part.Variable? ==> '{' !in env[part.name]) }

  lemma {:induction false} VariablesAre(parts: seq<Part>, env: Env)
    ensures AllSet(env, Variables(parts)) <==> forall i | 0 <= i < |parts| :: Settable(parts[i], env)
    ensures AllSet(env, Variables(parts)) ==>
              (PlainValues(env, Variables(parts)) <==> forall i | 0 <= i < |parts| :: PlainlySet(parts[i], env))
  {
    if parts == [] {
    } else {
      var rest := parts[1..];
      VariablesAre(rest, env);
      assert forall i | 0 < i < |parts| :: parts[i] == rest[i - 1];
      assert forall i | 0 <= i < |rest| :: rest[i] == parts[i + 1];
      if parts[0].Variable? {
        FirstAndRest(Match(PrintPart(parts[0]), parts[0].name), Variables(rest), env);
      } else {
        assert Variables(parts) == Variables(rest);
      }
    }
  }

  /**
   * Printing a template from literal text and variables and resolving it gives the text with every value in its place,
   * when all are set and no value has an opening brace; and the empty string when one is not set.
   */
  lemma TemplateRoundTrip(parts: seq<Part>, env: Env)
    requires forall i | 0 <= i < |parts| :: Proper(parts[i])
    ensures (exists i | 0 <= i < |parts| :: !Settable(parts[i], env)) ==> Resolve(PrintTemplate(parts), env) == ""
    ensures (forall i | 0 <= i < |parts| :: PlainlySet(parts[i], env)) ==>
              Resolve(PrintTemplate(parts), env) == Fill(parts, env)
  {
    TemplateRead(parts);
    VariablesAre(parts, env);
    if forall i | 0 <= i < |parts| :: PlainlySet(parts[i], env) {
      TemplateFilled(parts, env);
      TemplateIsPlain(parts);
      ResolveIsSubstitution(PrintTemplate(parts), env);
    }
  }
}
