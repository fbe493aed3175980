/** String operations of the Go library that the parsers are built from. */
module Text {
  import opened Names

  // ---- Splitting and joining ----

  /** strings.Split with a one-character separator. */
  function Split(s: string, sep: char): (parts: seq<string>)
    ensures |parts| > 0
  {
    if s == [] then [[]]
    else
      var init := Split(s[..|s| - 1], sep);
      if s[|s| - 1] == sep then init + [[]]
      else init[|init| - 1 := init[|init| - 1] + [s[|s| - 1]]]
  }

  lemma {:induction false} SplitHasNoSeparators(s: string, sep: char)
    ensures forall i | 0 <= i < |Split(s, sep)| :: sep !in Split(s, sep)[i]
  {
    if s == [] {
    } else {
      SplitHasNoSeparators(s[..|s| - 1], sep);
    }
  }

  /** strings.Join with a one-character separator. */
  function Join(parts: seq<string>, sep: char): string {
    if parts == [] then []
    else if |parts| == 1 then parts[0]
    else Join(parts[..|parts| - 1], sep) + [sep] + parts[|parts| - 1]
  }

  lemma JoinOpened(parts: seq<string>, sep: char)
    requires parts != []
    ensures Join(parts + [[]], sep) == Join(parts, sep) + [sep]
  {
    assert (parts + [[]])[..|parts|] == parts;
  }

  lemma JoinGrown(parts: seq<string>, c: char, sep: char)
    requires parts != []
    ensures Join(parts[|parts| - 1 := parts[|parts| - 1] + [c]], sep) == Join(parts, sep) + [c]
  {
    var last := parts[|parts| - 1];
    if |parts| > 1 {
      var init := parts[..|parts| - 1];
      assert parts[|parts| - 1 := last + [c]][..|parts| - 1] == init;
      assert Join(init, sep) + [sep] + (last + [c]) == Join(init, sep) + [sep] + last + [c];
    }
  }

  lemma {:induction false} JoinSplit(s: string, sep: char)
    ensures Join(Split(s, sep), sep) == s
  {
    if s == [] {
    } else {
      var init, c := s[..|s| - 1], s[|s| - 1];
      JoinSplit(init, sep);
      JoinOpened(Split(init, sep), sep);
      JoinGrown(Split(init, sep), c, sep);
      assert s == init + [c];
    }
  }

  lemma {:induction false} SplitPlain(s: string, sep: char)
    requires sep !in s
    ensures Split(s, sep) == [s]
  {
    if s == [] {
    } else {
      SplitPlain(s[..|s| - 1], sep);
      assert s == s[..|s| - 1] + [s[|s| - 1]];
    }
  }

  lemma {:induction false} SplitLast(a: string, b: string, sep: char)
    requires sep !in b
    ensures Split(a + [sep] + b, sep) == Split(a, sep) + [b]
    decreases |b|
  {
    var s := a + [sep] + b;
    if b == [] {
      assert s[..|s| - 1] == a;
    } else {
      var b' := b[..|b| - 1];
      assert s[..|s| - 1] == a + [sep] + b';
      SplitLast(a, b', sep);
      assert b == b' + [b[|b| - 1]];
      var parts := Split(a, sep) + [b'];
      assert parts[|parts| - 1 := parts[|parts| - 1] + [b[|b| - 1]]] == Split(a, sep) + [b];
    }
  }

  lemma {:induction false} SplitJoin(parts: seq<string>, sep: char)
    requires parts != [] && forall i | 0 <= i < |parts| :: sep !in parts[i]
    ensures Split(Join(parts, sep), sep) == parts
  {
    var n := |parts| - 1;
    if n == 0 {
      SplitPlain(parts[0], sep);
      assert parts == [parts[0]];
    } else {
      SplitJoin(parts[..n], sep);
      SplitLast(Join(parts[..n], sep), parts[n], sep);
      assert parts == parts[..n] + [parts[n]];
    }
  }

  // ---- First occurrences ----

  /** Each element once, where it first occurs. */
  function FirstOccurrences(xs: seq<string>): seq<string> {
    if xs == [] then []
    else
      var init := FirstOccurrences(xs[..|xs| - 1]);
      if xs[|xs| - 1] in init then init else init + [xs[|xs| - 1]]
  }

  lemma {:induction false} FirstOccurrencesOnce(xs: seq<string>)
    ensures forall x :: x in FirstOccurrences(xs) <==> x in xs
    ensures forall i, j | 0 <= i < j < |FirstOccurrences(xs)| :: FirstOccurrences(xs)[i] != FirstOccurrences(xs)[j]
  {
    if xs == [] {
    } else {
      FirstOccurrencesOnce(xs[..|xs| - 1]);
      assert xs == xs[..|xs| - 1] + [xs[|xs| - 1]];
    }
  }

  lemma FirstOccurrencesSnoc(xs: seq<string>, x: string)
    ensures FirstOccurrences(xs + [x]) ==
            if x in FirstOccurrences(xs) then FirstOccurrences(xs) else FirstOccurrences(xs) + [x]
  {
    assert (xs + [x])[..|xs|] == xs;
  }

  /** Appending can only append: elements stay in the order in which they first occurred. */
  lemma {:induction false} FirstOccurrencesGrow(xs: seq<string>, ys: seq<string>)
    ensures FirstOccurrences(xs) <= FirstOccurrences(xs + ys)
    decreases |ys|
  {
    if ys == [] {
      assert xs + ys == xs;
    } else {
      assert (xs + ys)[..|xs + ys| - 1] == xs + ys[..|ys| - 1];
      FirstOccurrencesGrow(xs, ys[..|ys| - 1]);
    }
  }

  // ---- Trimming ----

  predicate IsSpace(c: char) {
    c == ' ' || c == '\t' || c == '\n' || c == '\r' || c as int == 11 || c as int == 12
  }

  function TrimLeft(s: string): string {
    if s != [] && IsSpace(s[0]) then TrimLeft(s[1..]) else s
  }

  function TrimRight(s: string): string {
    if s != [] && IsSpace(s[|s| - 1]) then TrimRight(s[..|s| - 1]) else s
  }

  function Trim(s: string): string { TrimRight(TrimLeft(s)) }

  predicate AllSpaces(s: string) { forall i | 0 <= i < |s| :: IsSpace(s[i]) }

  /** The white space of ASCII: tab to carriage return, and the blank. */
  lemma IsSpaceIff(c: char)
    ensures IsSpace(c) <==> c == ' ' || 9 <= c as int <= 13
  {
  }

  /** No white space at either end. */
  predicate Tight(s: string) { s != [] ==> !IsSpace(s[0]) && !IsSpace(s[|s| - 1]) }

  lemma {:induction false} TrimLeftPadded(a: string, s: string)
    requires AllSpaces(a) && (s == [] || !IsSpace(s[0]))
    ensures TrimLeft(a + s) == s
    decreases |a|
  {
    if a == [] {
      assert a + s == s;
    } else {
      assert (a + s)[1..] == a[1..] + s;
      TrimLeftPadded(a[1..], s);
    }
  }

  lemma {:induction false} TrimRightPadded(s: string, b: string)
    requires AllSpaces(b) && (s == [] || !IsSpace(s[|s| - 1]))
    ensures TrimRight(s + b) == s
    decreases |b|
  {
    if b == [] {
      assert s + b == s;
    } else {
      assert (s + b)[..|s + b| - 1] == s + b[..|b| - 1];
      TrimRightPadded(s, b[..|b| - 1]);
    }
  }

  /** Trimming takes off all the padding of a tight text and nothing else. */
  lemma TrimPadded(a: string, s: string, b: string)
    requires AllSpaces(a) && AllSpaces(b) && Tight(s)
    ensures Trim(a + s + b) == s
  {
    if s == [] {
      assert a + s + b == (a + b) + [];
      TrimLeftPadded(a + b, []);
    } else {
      assert a + s + b == a + (s + b);
      TrimLeftPadded(a, s + b);
      TrimRightPadded(s, b);
    }
  }

  lemma {:induction false} TrimLeftSplits(s: string) returns (a: string)
    ensures AllSpaces(a) && s == a + TrimLeft(s)
    ensures TrimLeft(s) != [] ==> !IsSpace(TrimLeft(s)[0])
  {
    if s == [] || !IsSpace(s[0]) {
      a := [];
    } else {
      a := TrimLeftSplits(s[1..]);
      a := [s[0]] + a;
      assert s == [s[0]] + s[1..];
    }
  }

  lemma {:induction false} TrimRightSplits(s: string) returns (b: string)
    ensures AllSpaces(b) && s == TrimRight(s) + b
    ensures TrimRight(s) != [] ==> !IsSpace(TrimRight(s)[|TrimRight(s)| - 1])
  {
    if s == [] || !IsSpace(s[|s| - 1]) {
      b := [];
    } else {
      var last := s[|s| - 1];
      b := TrimRightSplits(s[..|s| - 1]);
      b := b + [last];
      assert s == s[..|s| - 1] + [last];
    }
  }

  /** Every text is padding around what trimming leaves of it, and that is tight. */
  lemma TrimSplits(s: string) returns (a: string, b: string)
    ensures AllSpaces(a) && AllSpaces(b) && s == a + Trim(s) + b && Tight(Trim(s))
  {
    a := TrimLeftSplits(s);
    b := TrimRightSplits(TrimLeft(s));
    assert Trim(s) != [] ==> Trim(s)[0] == TrimLeft(s)[0];
  }

  // ---- Scanning ----

  /** Position of the first c, or the length of s when there is none. */
  function IndexOf(s: string, c: char): (n: nat)
    ensures n <= |s|
  {
    if s == [] || s[0] == c then 0 else 1 + IndexOf(s[1..], c)
  }

  lemma {:induction false} IndexOfAfter(a: string, b: string, c: char)
    requires c !in a && (b == [] || b[0] == c)
    ensures IndexOf(a + b, c) == |a|
    decreases |a|
  {
    if a == [] {
      assert a + b == b;
    } else {
      assert (a + b)[1..] == a[1..] + b;
      IndexOfAfter(a[1..], b, c);
    }
  }

  /** The texts between `opening` and the next `closing`: all leftmost, non-overlapping, non-empty matches. */
  function FindAll(s: string, opening: string, closing: char): seq<string> {
    if s == [] then []
    else if opening <= s then
      var rest := s[|opening|..];
      var n := IndexOf(rest, closing);
      if 0 < n < |rest| then [rest[..n]] + FindAll(rest[n + 1..], opening, closing)
      else FindAll(s[1..], opening, closing)
    else FindAll(s[1..], opening, closing)
  }

  lemma PrefixOfSum(a: string, b: string)
    ensures a <= a + b && (a + b)[|a|..] == b && (a + b)[..|a|] == a
  {
  }

  lemma FoundFirst(opening: string, middle: string, closing: char, rest: string)
    requires middle != [] && closing !in middle
    ensures FindAll(opening + (middle + ([closing] + rest)), opening, closing) ==
            [middle] + FindAll(rest, opening, closing)
  {
    var tail := [closing] + rest;
    PrefixOfSum(opening, middle + tail);
    PrefixOfSum(middle, tail);
    IndexOfAfter(middle, tail, closing);
    assert (middle + tail)[|middle| + 1..] == tail[1..] == rest;
  }

  /** `middle` stands in s between `opening` and the next `closing`. */
  predicate StandsIn(s: string, opening: string, middle: string, closing: char) {
    middle != [] && closing !in middle && exists i | 0 <= i <= |s| :: opening + middle + [closing] <= s[i..]
  }

  lemma StandsInLonger(a: string, s: string, opening: string, middle: string, closing: char)
    requires StandsIn(s, opening, middle, closing)
    ensures StandsIn(a + s, opening, middle, closing)
  {
    var i :| 0 <= i <= |s| && opening + middle + [closing] <= s[i..];
    assert (a + s)[|a| + i..] == s[i..];
  }

  lemma {:induction false} IndexOfIsFirst(s: string, c: char)
    ensures c !in s[..IndexOf(s, c)] && (IndexOf(s, c) < |s| ==> s[IndexOf(s, c)] == c)
  {
    if s == [] || s[0] == c {
    } else {
      IndexOfIsFirst(s[1..], c);
      assert s[..IndexOf(s, c)] == [s[0]] + s[1..][..IndexOf(s[1..], c)];
    }
  }

  ghost predicate AllStandIn(s: string, opening: string, middles: seq<string>, closing: char) {
    forall m | m in middles :: StandsIn(s, opening, m, closing)
  }

  lemma AllStandInLonger(a: string, s: string, opening: string, middles: seq<string>, closing: char)
    requires AllStandIn(s, opening, middles, closing)
    ensures AllStandIn(a + s, opening, middles, closing)
  {
    forall m | m in middles ensures StandsIn(a + s, opening, m, closing) { StandsInLonger(a, s, opening, m, closing); }
  }

  lemma FirstStandsIn(opening: string, rest: string, closing: char)
    requires 0 < IndexOf(rest, closing) < |rest|
    ensures StandsIn(opening + rest, opening, rest[..IndexOf(rest, closing)], closing)
  {
    var n := IndexOf(rest, closing);
    IndexOfIsFirst(rest, closing);
    assert (opening + rest)[0..] == opening + rest;
    assert rest[..n] + [closing] <= rest;
    assert opening + rest[..n] + [closing] == opening + (rest[..n] + [closing]);
  }

  lemma FoundHere(opening: string, rest: string, closing: char)
    requires 0 < IndexOf(rest, closing) < |rest|
    requires
      var tail := rest[IndexOf(rest, closing) + 1..];
      AllStandIn(tail, opening, FindAll(tail, opening, closing), closing)
    ensures AllStandIn(opening + rest, opening, FindAll(opening + rest, opening, closing), closing)
  {
    var n := IndexOf(rest, closing);
    var tail, front := rest[n + 1..], opening + rest[..n + 1];
    FirstStandsIn(opening, rest, closing);
    AllStandInLonger(front, tail, opening, FindAll(tail, opening, closing), closing);
    assert front + tail == opening + rest;
    PrefixOfSum(opening, rest);
    assert FindAll(opening + rest, opening, closing) == [rest[..n]] + FindAll(tail, opening, closing);
  }

  /** Nothing is found that does not stand there: no unclosed text, no empty one, none across a closing character. */
  lemma {:induction false} FoundStandsIn(s: string, opening: string, closing: char)
    ensures AllStandIn(s, opening, FindAll(s, opening, closing), closing)
  {
    if s == [] {
    } else {
      var rest := if opening <= s then s[|opening|..] else [];
      var n := IndexOf(rest, closing);
      if opening <= s && 0 < n < |rest| {
        FoundStandsIn(rest[n + 1..], opening, closing);
        FoundHere(opening, rest, closing);
        assert s == opening + rest;
      } else {
        assert FindAll(s, opening, closing) == FindAll(s[1..], opening, closing);
        FoundStandsIn(s[1..], opening, closing);
        AllStandInLonger(s[..1], s[1..], opening, FindAll(s[1..], opening, closing), closing);
        assert s == s[..1] + s[1..];
      }
    }
  }

  lemma {:induction false} SkipPrefix(g: string, rest: string, opening: string, closing: char)
    requires forall i | 0 <= i < |g| :: !(opening <= (g + rest)[i..])
    ensures FindAll(g + rest, opening, closing) == FindAll(rest, opening, closing)
    decreases |g|
  {
    if g == [] {
      assert g + rest == rest;
    } else {
      assert (g + rest)[0..] == g + rest;
      assert (g + rest)[1..] == g[1..] + rest;
      assert forall i | 0 <= i < |g[1..]| :: (g[1..] + rest)[i..] == (g + rest)[i + 1..];
      SkipPrefix(g[1..], rest, opening, closing);
    }
  }
}
