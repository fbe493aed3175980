/** The extractor of hostnames from Traefik configuration text. */
module TraefikParser {
  import opened Names
  import opened Text
  import opened EnvTemplate

  // ---- Comments ----

  predicate Toggled(c: char, quoted: bool) { if c == '`' then !quoted else quoted }

  /** The line up to its first # outside backticks; `quoted` says whether it starts inside. */
  function Uncommented(line: string, quoted: bool): (r: string)
    ensures r <= line
  {
    if line == [] || (line[0] == '#' && !quoted) then []
    else
      var r := Uncommented(line[1..], Toggled(line[0], quoted));
      [line[0]] + r
  }

  function StripLine(line: string): string { Uncommented(line, false) }

  function StripLines(lines: seq<string>): seq<string> {
    seq(|lines|, i requires 0 <= i < |lines| => StripLine(lines[i]))
  }

  function Strip(content: string): string { Join(StripLines(Split(content, '\n')), '\n') }

  method StripCommentFrom(line: string) returns (r: string)
    ensures r == StripLine(line)
  {
    var inBacktick := false;
    assert line[..0] + Uncommented(line[0..], false) == StripLine(line) by { assert line[0..] == line; }
    for i := 0 to |line|
      invariant line[..i] + Uncommented(line[i..], inBacktick) == StripLine(line)
    {
      ScanStep(line, i, inBacktick);
      if line[i] == '`' {
        inBacktick := !inBacktick;
      } else if line[i] == '#' && !inBacktick {
        return line[..i];
      }
    }
    assert line[..|line|] == line;
    return line;
  }

  lemma ScanStep(line: string, i: nat, quoted: bool)
    requires i < |line|
    ensures line[..i] + Uncommented(line[i..], quoted) ==
            if line[i] == '#' && !quoted then line[..i]
            else line[..i + 1] + Uncommented(line[i + 1..], Toggled(line[i], quoted))
  {
    var c, rest := line[i], line[i + 1..];
    assert line[i..] == [c] + rest;
    if c == '#' && !quoted {
      assert line[..i] + [] == line[..i];
    } else {
      UncommentedCons(c, rest, quoted);
      TakeOne(line, i, Uncommented(rest, Toggled(c, quoted)));
    }
  }

  lemma TakeOne(line: string, i: nat, after: string)
    requires i < |line|
    ensures line[..i] + ([line[i]] + after) == line[..i + 1] + after
  {
  }

  lemma UncommentedCons(c: char, rest: string, quoted: bool)
    requires c != '#' || quoted
    ensures Uncommented([c] + rest, quoted) == [c] + Uncommented(rest, Toggled(c, quoted))
  {
    assert ([c] + rest)[1..] == rest;
  }

  method StripComments(content: string) returns (r: string)
    ensures r == Strip(content)
  {
    var lines := Split(content, '\n');
    var cleanLines: seq<string> := [];
    for i := 0 to |lines|
      invariant cleanLines == StripLines(lines)[..i]
    {
      var line := StripCommentFrom(lines[i]);
      cleanLines := cleanLines + [line];
    }
    assert StripLines(lines)[..|lines|] == StripLines(lines);
    r := Join(cleanLines, '\n');
  }

  lemma {:induction false} UncommentedTwice(line: string, quoted: bool)
    ensures Uncommented(Uncommented(line, quoted), quoted) == Uncommented(line, quoted)
    decreases |line|
  {
    if line == [] || (line[0] == '#' && !quoted) {
    } else {
      var q := Toggled(line[0], quoted);
      UncommentedTwice(line[1..], q);
      var r := Uncommented(line, quoted);
      assert r[1..] == Uncommented(line[1..], q);
    }
  }

  lemma StripLinesClean(lines: seq<string>)
    requires forall i | 0 <= i < |lines| :: '\n' !in lines[i]
    ensures forall i | 0 <= i < |lines| :: '\n' !in StripLines(lines)[i]
  {
  }

  lemma StripIdempotent(content: string)
    ensures Strip(Strip(content)) == Strip(content)
  {
    var lines := Split(content, '\n');
    SplitHasNoSeparators(content, '\n');
    StripLinesClean(lines);
    SplitJoin(StripLines(lines), '\n');
    forall i | 0 <= i < |lines| ensures StripLine(StripLine(lines[i])) == StripLine(lines[i]) {
      UncommentedTwice(lines[i], false);
    }
    assert StripLines(StripLines(lines)) == StripLines(lines);
  }

  function Ticks(s: string): nat {
    if s == [] then 0 else (if s[0] == '`' then 1 else 0) + Ticks(s[1..])
  }

  lemma {:induction false} AppendComment(line: string, comment: string, quoted: bool)
    ensures Uncommented(line + ['#'] + comment, quoted) == Uncommented(line, quoted) <==>
            Uncommented(line, quoted) != line || (quoted <==> Ticks(line) % 2 == 1)
    decreases |line|
  {
    if line == [] {
      assert (line + ['#'] + comment)[0] == '#';
    } else if line[0] == '#' && !quoted {
      assert (line + ['#'] + comment)[0] == '#';
    } else {
      var c, rest, q := line[0], line[1..], Toggled(line[0], quoted);
      var rest' := rest + ['#'] + comment;
      assert line == [c] + rest && line + ['#'] + comment == [c] + rest';
      UncommentedCons(c, rest, quoted);
      UncommentedCons(c, rest', quoted);
      AppendComment(rest, comment, q);
      ConsEqual(c, Uncommented(rest', q), Uncommented(rest, q));
      ConsEqual(c, Uncommented(rest, q), rest);
    }
  }

  lemma ConsEqual(c: char, x: string, y: string)
    ensures [c] + x == [c] + y <==> x == y
  {
    assert ([c] + x)[1..] == x && ([c] + y)[1..] == y;
  }

  /** A comment after a line changes nothing exactly when the line's backticks pair up or it already has a comment. */
  lemma CommentIsIgnoredIff(line: string, comment: string)
    ensures StripLine(line + ['#'] + comment) == StripLine(line) <==> StripLine(line) != line || Ticks(line) % 2 == 0
  {
    AppendComment(line, comment, false);
  }

  /** `comments[i]`, when present, is appended to line i after a #. */
  function WithComments(lines: seq<string>, comments: seq<Option<string>>): seq<string>
    requires |comments| == |lines|
  {
    seq(|lines|, i requires 0 <= i < |lines| =>
      if comments[i].None? then lines[i] else lines[i] + ['#'] + comments[i].value)
  }

  lemma CommentsAreIgnored(lines: seq<string>, comments: seq<Option<string>>)
    requires lines != [] && |comments| == |lines| && forall i | 0 <= i < |lines| :: '\n' !in lines[i]
    requires forall i | 0 <= i < |lines| && comments[i].Some? :: '\n' !in comments[i].value && Ticks(lines[i]) % 2 == 0
    ensures Strip(Join(WithComments(lines, comments), '\n')) == Strip(Join(lines, '\n'))
  {
    var commented := WithComments(lines, comments);
    forall i | 0 <= i < |lines|
      ensures '\n' !in commented[i] && StripLine(commented[i]) == StripLine(lines[i])
    {
      if comments[i].Some? { CommentIsIgnoredIff(lines[i], comments[i].value); }
    }
    SplitJoin(lines, '\n');
    SplitJoin(commented, '\n');
    assert StripLines(commented) == StripLines(lines);
  }

  // ---- Where a line is cut ----

  /** A comment begins at i: a # with an even number of backticks before it. */
  predicate CommentAt(line: string, i: nat)
    requires i < |line|
  {
    line[i] == '#' && Ticks(line[..i]) % 2 == 0
  }

  lemma {:induction false} TicksSnoc(s: string, c: char)
    ensures Ticks(s + [c]) == Ticks(s) + if c == '`' then 1 else 0
  {
    if s == [] {
      assert s + [c] == [c];
    } else {
      assert (s + [c])[1..] == s[1..] + [c];
      TicksSnoc(s[1..], c);
    }
  }

  lemma TicksCons(c: char, s: string)
    ensures Ticks([c] + s) == Ticks(s) + if c == '`' then 1 else 0
  {
    assert ([c] + s)[1..] == s;
  }

  /** Scanning that starts inside backticks, if `quoted`, meets an unquoted # at i. */
  predicate BareAt(line: string, i: nat, quoted: bool)
    requires i < |line|
  {
    line[i] == '#' && (quoted <==> Ticks(line[..i]) % 2 == 1)
  }

  lemma BareAtCons(c: char, rest: string, i: nat, quoted: bool)
    requires i < |rest|
    ensures BareAt([c] + rest, i + 1, quoted) <==> BareAt(rest, i, Toggled(c, quoted))
  {
    assert ([c] + rest)[..i + 1] == [c] + rest[..i];
    TicksCons(c, rest[..i]);
  }

  lemma {:induction false} UncommentedEnds(line: string, quoted: bool)
    ensures
      var n := |Uncommented(line, quoted)|;
      && Uncommented(line, quoted) == line[..n]
      && (n < |line| ==> BareAt(line, n, quoted))
      && (forall i | 0 <= i < n :: !BareAt(line, i, quoted))
    decreases |line|
  {
    if line == [] {
    } else if line[0] == '#' && !quoted {
      assert line[..0] == [];
    } else {
      var c, rest, q := line[0], line[1..], Toggled(line[0], quoted);
      UncommentedEnds(rest, q);
      var n := |Uncommented(line, quoted)|;
      assert line == [c] + rest && line[..0] == [];
      forall i | 0 < i < |line| ensures BareAt(line, i, quoted) <==> BareAt(rest, i - 1, q) {
        BareAtCons(c, rest, i - 1, quoted);
      }
      forall i | 0 <= i < n ensures !BareAt(line, i, quoted) {
        if i > 0 { assert !BareAt(rest, i - 1, q); }
      }
    }
  }

  /** A line is kept up to its first comment, and a # between backticks is none. */
  lemma StripLineEnds(line: string)
    ensures
      var n := |StripLine(line)|;
      && n <= |line| && StripLine(line) == line[..n]
      && (n < |line| ==> CommentAt(line, n))
      && (forall i | 0 <= i < n :: !CommentAt(line, i))
  {
    UncommentedEnds(line, false);
    assert forall i | 0 <= i < |line| :: CommentAt(line, i) <==> BareAt(line, i, false);
  }

  predicate NoComment(line: string) { forall i | 0 <= i < |line| :: !CommentAt(line, i) }

  lemma StripsNothingIff(line: string)
    ensures StripLine(line) == line <==> NoComment(line)
  {
    StripLineEnds(line);
  }

  ghost predicate NoComments(text: string) { forall line | line in Split(text, '\n') :: NoComment(line) }

  lemma StripWithoutComments(text: string)
    requires NoComments(text)
    ensures Strip(text) == text
  {
    var lines := Split(text, '\n');
    JoinSplit(text, '\n');
    forall i | 0 <= i < |lines| ensures StripLine(lines[i]) == lines[i] { StripsNothingIff(lines[i]); }
    assert StripLines(lines) == lines;
  }

  // ---- Text in which every # stands between backticks of its line ----

  /** Whether a text ends inside backticks; a line break ends them. */
  predicate EndsQuoted(text: string) {
    text != [] && text[|text| - 1] != '\n' && Toggled(text[|text| - 1], EndsQuoted(text[..|text| - 1]))
  }

  predicate Guarded(text: string) {
    text == [] || (Guarded(text[..|text| - 1]) && (text[|text| - 1] == '#' ==> EndsQuoted(text[..|text| - 1])))
  }

  lemma NoCommentSnoc(line: string, c: char)
    ensures NoComment(line + [c]) <==> NoComment(line) && (c == '#' ==> Ticks(line) % 2 == 1)
  {
    var longer := line + [c];
    assert longer[..|line|] == line && longer[|line|] == c;
    forall i | 0 <= i < |line| ensures CommentAt(longer, i) <==> CommentAt(line, i) {
      assert longer[..i] == line[..i];
    }
    if NoComment(longer) {
      assert !CommentAt(longer, |line|);
    } else if NoComment(line) {
      var i :| 0 <= i < |longer| && CommentAt(longer, i);
      assert i == |line|;
    }
  }

  lemma {:induction false} GuardedIff(text: string)
    ensures Guarded(text) <==> NoComments(text)
    ensures
      var lines := Split(text, '\n');
      EndsQuoted(text) <==> Ticks(lines[|lines| - 1]) % 2 == 1
  {
    if text == [] {
      assert Split(text, '\n') == [[]];
    } else {
      var init, c := text[..|text| - 1], text[|text| - 1];
      GuardedIff(init);
      var lines := Split(init, '\n');
      var n := |lines| - 1;
      if c == '\n' {
        assert Split(text, '\n') == lines + [[]];
        assert forall line | line in Split(text, '\n') :: line in lines || line == [];
        assert forall line | line in lines :: line in Split(text, '\n');
      } else {
        NoCommentSnoc(lines[n], c);
        TicksSnoc(lines[n], c);
        LastReplaced(lines, lines[n] + [c]);
      }
    }
  }

  /** Replacing the last line: all lines are free of comments exactly when the earlier ones and the new one are. */
  lemma LastReplaced(lines: seq<string>, last: string)
    requires lines != []
    ensures (forall line | line in lines[|lines| - 1 := last] :: NoComment(line)) <==>
            (forall i | 0 <= i < |lines| - 1 :: NoComment(lines[i])) && NoComment(last)
    ensures (forall line | line in lines :: NoComment(line)) <==>
            (forall i | 0 <= i < |lines| - 1 :: NoComment(lines[i])) && NoComment(lines[|lines| - 1])
  {
    var n := |lines| - 1;
    var changed := lines[n := last];
    assert forall i | 0 <= i < n :: changed[i] == lines[i];
    if forall line | line in changed :: NoComment(line) {
      assert changed[n] in changed;
      forall i | 0 <= i < n ensures NoComment(lines[i]) { assert changed[i] in changed; }
    }
  }

  lemma {:induction false} GuardedConcat(a: string, b: string)
    requires !EndsQuoted(a)
    ensures EndsQuoted(a + b) <==> EndsQuoted(b)
    ensures Guarded(a + b) <==> Guarded(a) && Guarded(b)
    decreases |b|
  {
    if b == [] {
      assert a + b == a;
    } else {
      assert (a + b)[..|a + b| - 1] == a + b[..|b| - 1];
      GuardedConcat(a, b[..|b| - 1]);
    }
  }

  /** Text that leaves no backtick open and has no # outside of them. */
  predicate Tidy(text: string) { Guarded(text) && !EndsQuoted(text) }

  lemma TidyConcat(a: string, b: string)
    requires Tidy(a) && Tidy(b)
    ensures Tidy(a + b)
  {
    GuardedConcat(a, b);
  }

  lemma {:induction false} TidyPlain(text: string)
    requires '#' !in text && '`' !in text
    ensures Tidy(text)
  {
    if text == [] {
    } else {
      TidyPlain(text[..|text| - 1]);
    }
  }

  lemma {:induction false} OpenName(name: string)
    requires '`' !in name && '\n' !in name
    ensures Guarded(['`'] + name) && EndsQuoted(['`'] + name)
  {
    var s := ['`'] + name;
    if name == [] {
      assert s[..|s| - 1] == [];
    } else {
      assert s[..|s| - 1] == ['`'] + name[..|name| - 1];
      OpenName(name[..|name| - 1]);
    }
  }

  /** A name between backticks is tidy, also with a # in it. */
  lemma QuotedNameIsTidy(name: string)
    requires '`' !in name && '\n' !in name
    ensures Tidy(['`'] + name + ['`'])
  {
    var s := ['`'] + name + ['`'];
    OpenName(name);
    assert s[..|s| - 1] == ['`'] + name;
  }

  // ---- Extraction ----

  const HOST := "Host("
  const HOST_SNI := "HostSNI("

  function Quoted(inner: string): seq<string> { FindAll(inner, ['`'], '`') }

  /** All backtick-quoted strings of the given rule contents, in order. */
  function QuotedStrings(inners: seq<string>): seq<string> {
    if inners == [] then []
    else QuotedStrings(inners[..|inners| - 1]) + Quoted(inners[|inners| - 1])
  }

  /** Templates resolved and lowercased; those with an unset variable are skipped. */
  function Resolved(templates: seq<string>, env: Env): seq<string> {
    if templates == [] then []
    else
      var r := Resolve(templates[|templates| - 1], env);
      Resolved(templates[..|templates| - 1], env) + if r == "" then [] else [Lower(r)]
  }

  function Extracted(templates: seq<string>, env: Env): seq<string> { FirstOccurrences(Resolved(templates, env)) }

  function HostTemplates(clean: string): seq<string> { QuotedStrings(FindAll(clean, HOST, ')')) }

  function SniTemplates(clean: string): seq<string> { QuotedStrings(FindAll(clean, HOST_SNI, ')')) }

  /** The hosts of a file: Host() rules before HostSNI() rules, each name once. */
  function Parse(content: string, env: Env): seq<string> {
    Extracted(HostTemplates(Strip(content)) + SniTemplates(Strip(content)), env)
  }

  lemma ExtractedSnoc(templates: seq<string>, t: string, env: Env)
    ensures
      var r, hosts := Resolve(t, env), Extracted(templates, env);
      Extracted(templates + [t], env) == if r == "" || Lower(r) in hosts then hosts else hosts + [Lower(r)]
  {
    assert (templates + [t])[..|templates|] == templates;
    var all := Resolved(templates, env);
    if Resolve(t, env) == "" {
      assert all + [] == all;
    } else {
      FirstOccurrencesSnoc(all, Lower(Resolve(t, env)));
    }
  }

  method TakeIn(template: string, env: Env, known: seq<string>, ghost templates: seq<string>)
    returns (hosts: seq<string>)
    requires known == Extracted(templates, env)
    ensures hosts == Extracted(templates + [template], env)
  {
    ExtractedSnoc(templates, template, env);
    hosts := known;
    var resolved := ResolveEnvTemplate(template, env);
    if resolved == "" {
      return;
    }
    resolved := Lower(resolved);
    if resolved !in hosts {
      hosts := hosts + [resolved];
    }
  }

  lemma QuotedSnoc(templates: seq<string>, inners: seq<string>, i: nat)
    requires i < |inners|
    ensures templates + QuotedStrings(inners[..i + 1]) == (templates + QuotedStrings(inners[..i])) + Quoted(inners[i])
  {
    assert inners[..i + 1][..i] == inners[..i];
  }

  lemma TakenSnoc(templates: seq<string>, quoted: seq<string>, j: nat)
    requires j < |quoted|
    ensures templates + quoted[..j + 1] == (templates + quoted[..j]) + [quoted[j]]
  {
  }

  method TakeInAll(quoted: seq<string>, env: Env, known: seq<string>, ghost templates: seq<string>)
    returns (hosts: seq<string>)
    requires known == Extracted(templates, env)
    ensures hosts == Extracted(templates + quoted, env)
  {
    hosts := known;
    ghost var taken := templates;
    for j := 0 to |quoted|
      invariant taken == templates + quoted[..j]
      invariant hosts == Extracted(taken, env)
    {
      hosts := TakeIn(quoted[j], env, hosts, taken);
      TakenSnoc(templates, quoted, j);
      taken := taken + [quoted[j]];
    }
    assert taken == templates + quoted;
  }

  method ExtractHostsFromMatches(inners: seq<string>, env: Env, known: seq<string>, ghost templates: seq<string>)
    returns (hosts: seq<string>)
    requires known == Extracted(templates, env)
    ensures hosts == Extracted(templates + QuotedStrings(inners), env)
  {
    hosts := known;
    assert templates + QuotedStrings(inners[..0]) == templates;
    for i := 0 to |inners|
      invariant hosts == Extracted(templates + QuotedStrings(inners[..i]), env)
    {
      QuotedSnoc(templates, inners, i);
      hosts := TakeInAll(Quoted(inners[i]), env, hosts, templates + QuotedStrings(inners[..i]));
    }
    assert inners[..|inners|] == inners;
  }

  method ParseContent(content: string, env: Env) returns (hosts: seq<string>)
    ensures hosts == Parse(content, env)
    ensures forall i, j | 0 <= i < j < |hosts| :: hosts[i] != hosts[j]
  {
    var clean := StripComments(content);
    hosts := ExtractHostsFromMatches(FindAll(clean, HOST, ')'), env, [], []);
    hosts := ExtractHostsFromMatches(FindAll(clean, HOST_SNI, ')'), env, hosts, [] + HostTemplates(clean));
    assert [] + HostTemplates(clean) == HostTemplates(clean);
    FirstOccurrencesOnce(Resolved(HostTemplates(clean) + SniTemplates(clean), env));
  }

  // ---- Printing rules and reading them back ----

  datatype Rule = Rule(sni: bool, names: seq<string>)

  /** A rule and the text before it. */
  datatype Piece = Piece(glue: string, rule: Rule)

  function PrintNames(names: seq<string>): string {
    if names == [] then []
    else ['`'] + (names[0] + (['`'] + if |names| == 1 then [] else [','] + ([' '] + PrintNames(names[1..]))))
  }

  function Opening(sni: bool): string { if sni then HOST_SNI else HOST }

  /** A rule, followed by the rest of the text. */
  function PrintRule(r: Rule, rest: string): string { Opening(r.sni) + (PrintNames(r.names) + ([')'] + rest)) }

  function Print(pieces: seq<Piece>, tail: string): string {
    if pieces == [] then tail else pieces[0].glue + PrintRule(pieces[0].rule, Print(pieces[1..], tail))
  }

  /** A template that can stand between backticks inside a rule. */
  predicate Printable(name: string) {
    name != [] && '`' !in name && '(' !in name && ')' !in name
  }

  /** No rule of either kind opens in s. */
  predicate NoOpening(s: string) { forall i, sni | 0 <= i < |s| :: !(Opening(sni) <= s[i..]) }

  /** Any text around rules, with other conditions of a router in it. */
  predicate PrintableDoc(pieces: seq<Piece>, tail: string) {
    NoOpening(tail) && forall p | p in pieces :: NoOpening(p.glue) && forall n | n in p.rule.names :: Printable(n)
  }

  /** All names of the rules of one kind, in order. */
  function NamesOf(pieces: seq<Piece>, sni: bool): seq<string> {
    if pieces == [] then []
    else (if pieces[0].rule.sni == sni then pieces[0].rule.names else []) + NamesOf(pieces[1..], sni)
  }

  lemma {:induction false} PrintNamesClean(names: seq<string>)
    requires forall n | n in names :: Printable(n)
    ensures '(' !in PrintNames(names) && ')' !in PrintNames(names)
    ensures names != [] ==> PrintNames(names) != []
  {
    if names == [] {
    } else {
      assert names[0] in names;
      if |names| > 1 { PrintNamesClean(names[1..]); }
    }
  }

  lemma SkipChar(c: char, rest: string, opening: string, closing: char)
    requires opening != [] && opening[0] != c
    ensures FindAll([c] + rest, opening, closing) == FindAll(rest, opening, closing)
  {
    assert ([c] + rest)[1..] == rest;
  }

  lemma {:induction false} QuotedNamesRead(names: seq<string>)
    requires forall n | n in names :: Printable(n)
    ensures FindAll(PrintNames(names), ['`'], '`') == names
  {
    if names == [] {
    } else {
      var n := names[0];
      assert n in names;
      if |names| == 1 {
        FoundFirst(['`'], n, '`', []);
        assert names == [n];
      } else {
        var rest := PrintNames(names[1..]);
        FoundFirst(['`'], n, '`', [','] + ([' '] + rest));
        SkipChar(',', [' '] + rest, ['`'], '`');
        SkipChar(' ', rest, ['`'], '`');
        QuotedNamesRead(names[1..]);
        assert names == [n] + names[1..];
      }
    }
  }

  lemma PlainTextHasNoOpening(s: string)
    requires '(' !in s
    ensures NoOpening(s)
  {
    forall i, sni | 0 <= i < |s| ensures !(Opening(sni) <= s[i..]) {
      var opening := Opening(sni);
      assert opening[|opening| - 1] == '(';
      if |opening| <= |s[i..]| { assert s[i..][|opening| - 1] == s[i + |opening| - 1] != '('; }
    }
  }

  /** No rule can open across a closing parenthesis. */
  lemma NotAcross(a: string, b: string, sni: bool, i: nat)
    requires NoOpening(a) && NoOpening(b) && i <= |a| + |b|
    ensures !(Opening(sni) <= (a + [')'] + b)[i..])
  {
    var s := a + [')'] + b;
    if i <= |a| {
      assert s == a + ([')'] + b);
      OpeningStaysBefore(a, [')'] + b, sni, i);
    } else {
      var j := i - |a| - 1;
      assert s[i..] == b[j..];
      assert !(Opening(sni) <= b[j..]);
    }
  }

  lemma NoOpeningAcross(a: string, b: string)
    requires NoOpening(a) && NoOpening(b)
    ensures NoOpening(a + [')'] + b)
  {
    forall i, sni | 0 <= i < |a + [')'] + b| ensures !(Opening(sni) <= (a + [')'] + b)[i..]) {
      NotAcross(a, b, sni, i);
    }
  }

  /** No rule can open in front of a character that openings do not have, or only begin with. */
  lemma OpeningStaysBefore(g: string, rest: string, sni: bool, i: nat)
    requires NoOpening(g) && i <= |g| && (rest == [] || rest[0] == 'H' || rest[0] == ')')
    requires i == |g| ==> rest != [] && rest[0] == ')'
    ensures !(Opening(sni) <= (g + rest)[i..])
  {
    var opening, s := Opening(sni), (g + rest)[i..];
    var left := |g| - i;
    if |opening| <= |s| {
      if |opening| <= left {
        assert !(opening <= g[i..]);
        assert s[..|opening|] == g[i..][..|opening|];
      } else {
        assert s[left] == rest[0] != opening[left];
      }
    }
  }

  lemma GlueIsSkipped(g: string, rest: string, sni: bool)
    requires NoOpening(g) && (rest == [] || rest[0] == 'H')
    ensures FindAll(g + rest, Opening(sni), ')') == FindAll(rest, Opening(sni), ')')
  {
    forall i | 0 <= i < |g| ensures !(Opening(sni) <= (g + rest)[i..]) { OpeningStaysBefore(g, rest, sni, i); }
    SkipPrefix(g, rest, Opening(sni), ')');
  }

  lemma InnerHasNoOpening(inner: string, glue: string)
    requires '(' !in inner && NoOpening(glue)
    ensures NoOpening(inner + [')'] + glue)
  {
    PlainTextHasNoOpening(inner);
    NoOpeningAcross(inner, glue);
  }

  lemma SkipTwice(inner: string, glue: string, rest: string, sni: bool)
    requires NoOpening(inner + [')'] + glue) && NoOpening(glue) && (rest == [] || rest[0] == 'H')
    ensures FindAll(inner + [')'] + (glue + rest), Opening(sni), ')') == FindAll(glue + rest, Opening(sni), ')')
  {
    var g := inner + [')'] + glue;
    assert inner + [')'] + (glue + rest) == g + rest;
    GlueIsSkipped(g, rest, sni);
    GlueIsSkipped(glue, rest, sni);
  }

  /** The names and the closing parenthesis of a rule that is not looked for are passed over. */
  lemma SkipInner(inner: string, pieces: seq<Piece>, tail: string, sni: bool)
    requires '(' !in inner && PrintableDoc(pieces, tail)
    ensures FindAll(inner + [')'] + Print(pieces, tail), Opening(sni), ')') ==
            FindAll(Print(pieces, tail), Opening(sni), ')')
  {
    if pieces == [] {
      InnerHasNoOpening(inner, tail);
      SkipTwice(inner, tail, [], sni);
      assert tail + [] == tail;
    } else {
      assert pieces[0] in pieces;
      InnerHasNoOpening(inner, pieces[0].glue);
      SkipTwice(inner, pieces[0].glue, PrintRule(pieces[0].rule, Print(pieces[1..], tail)), sni);
    }
  }

  /** The opening of the other kind of rule, or of an empty rule, is passed over. */
  lemma SkipOpening(kind: bool, rest: string, sni: bool)
    requires kind != sni || (rest != [] && rest[0] == ')')
    ensures FindAll(Opening(kind) + rest, Opening(sni), ')') == FindAll(rest, Opening(sni), ')')
  {
    OpeningIsNoMatch(kind, rest, sni);
    OpeningTailIsSkipped(kind, rest, sni);
  }

  lemma OpeningIsNoMatch(kind: bool, rest: string, sni: bool)
    requires kind != sni || (rest != [] && rest[0] == ')')
    ensures FindAll(Opening(kind) + rest, Opening(sni), ')') == FindAll((Opening(kind) + rest)[1..], Opening(sni), ')')
  {
    var g, opening := Opening(kind), Opening(sni);
    if kind == sni {
      PrefixOfSum(g, rest);
    } else {
      assert (g + rest)[4] == g[4] != opening[4];
    }
  }

  lemma OpeningTailIsSkipped(kind: bool, rest: string, sni: bool)
    ensures FindAll((Opening(kind) + rest)[1..], Opening(sni), ')') == FindAll(rest, Opening(sni), ')')
  {
    var g, opening := Opening(kind), Opening(sni);
    OpeningBeginsWithH(kind);
    OpeningBeginsWithH(sni);
    var g' := g[1..];
    assert (g + rest)[1..] == g' + rest;
    forall i | 0 <= i < |g'| ensures !(opening <= (g' + rest)[i..]) {
      assert (g' + rest)[i..][0] == g[i + 1];
    }
    SkipPrefix(g', rest, opening, ')');
  }

  lemma OpeningBeginsWithH(sni: bool)
    ensures |Opening(sni)| > 4 && Opening(sni)[0] == 'H' && forall i | 0 < i < |Opening(sni)| :: Opening(sni)[i] != 'H'
  {
  }

  function Inners(pieces: seq<Piece>, sni: bool): seq<string> {
    if pieces == [] then []
    else
      (if pieces[0].rule.sni == sni && pieces[0].rule.names != [] then [PrintNames(pieces[0].rule.names)] else [])
      + Inners(pieces[1..], sni)
  }

  lemma RuleIsRead(r: Rule, rest: seq<Piece>, tail: string, sni: bool)
    requires PrintableDoc(rest, tail) && forall n | n in r.names :: Printable(n)
    ensures
      FindAll(PrintRule(r, Print(rest, tail)), Opening(sni), ')') ==
        (if r.sni == sni && r.names != [] then [PrintNames(r.names)] else []) +
          FindAll(Print(rest, tail), Opening(sni), ')')
  {
    var inner, after := PrintNames(r.names), Print(rest, tail);
    PrintNamesClean(r.names);
    if r.sni == sni && r.names != [] {
      FoundFirst(Opening(sni), inner, ')', after);
    } else {
      SkipOpening(r.sni, inner + ([')'] + after), sni);
      assert inner + ([')'] + after) == (inner + [')']) + after;
      SkipInner(inner, rest, tail, sni);
      assert [] + FindAll(after, Opening(sni), ')') == FindAll(after, Opening(sni), ')');
    }
  }

  lemma {:induction false} RulesAreFound(pieces: seq<Piece>, tail: string, sni: bool)
    requires PrintableDoc(pieces, tail)
    ensures FindAll(Print(pieces, tail), Opening(sni), ')') == Inners(pieces, sni)
    decreases |pieces|
  {
    if pieces == [] {
      GlueIsSkipped(tail, [], sni);
      assert tail + [] == tail;
    } else {
      var p, rest := pieces[0], pieces[1..];
      assert p in pieces && forall q | q in rest :: q in pieces;
      RulesAreFound(rest, tail, sni);
      RuleIsRead(p.rule, rest, tail, sni);
      GlueIsSkipped(p.glue, PrintRule(p.rule, Print(rest, tail)), sni);
    }
  }

  lemma {:induction false} QuotedConcat(a: seq<string>, b: seq<string>)
    ensures QuotedStrings(a + b) == QuotedStrings(a) + QuotedStrings(b)
    decreases |b|
  {
    if b == [] {
      assert a + b == a;
    } else {
      assert (a + b)[..|a + b| - 1] == a + b[..|b| - 1];
      QuotedConcat(a, b[..|b| - 1]);
    }
  }

  lemma QuotedOne(names: seq<string>)
    requires forall n | n in names :: Printable(n)
    ensures QuotedStrings([PrintNames(names)]) == names
  {
    QuotedNamesRead(names);
    assert [PrintNames(names)][..0] == [];
    assert [] + names == names;
  }

  lemma {:induction false} InnersRead(pieces: seq<Piece>, tail: string, sni: bool)
    requires PrintableDoc(pieces, tail)
    ensures QuotedStrings(Inners(pieces, sni)) == NamesOf(pieces, sni)
    decreases |pieces|
  {
    if pieces == [] {
    } else {
      var names, rest := pieces[0].rule.names, pieces[1..];
      assert pieces[0] in pieces && forall q | q in rest :: q in pieces;
      InnersRead(rest, tail, sni);
      if pieces[0].rule.sni == sni && names != [] {
        QuotedConcat([PrintNames(names)], Inners(rest, sni));
        QuotedOne(names);
      } else {
        assert [] + Inners(rest, sni) == Inners(rest, sni) && [] + NamesOf(rest, sni) == NamesOf(rest, sni);
      }
    }
  }

  lemma {:induction false} NamesAreTidy(names: seq<string>)
    requires forall n | n in names :: Printable(n) && '\n' !in n
    ensures Tidy(PrintNames(names))
  {
    if names == [] {
    } else {
      var quoted := ['`'] + names[0] + ['`'];
      assert names[0] in names;
      QuotedNameIsTidy(names[0]);
      if |names| == 1 {
        assert PrintNames(names) == quoted;
      } else {
        NamesAreTidy(names[1..]);
        TidyPlain([',', ' ']);
        TidyConcat(quoted, [',', ' ']);
        TidyConcat(quoted + [',', ' '], PrintNames(names[1..]));
        assert PrintNames(names) == quoted + [',', ' '] + PrintNames(names[1..]);
      }
    }
  }

  lemma RuleIsTidy(r: Rule, rest: string)
    requires (forall n | n in r.names :: Printable(n) && '\n' !in n) && Tidy(rest)
    ensures Tidy(PrintRule(r, rest))
  {
    var opening, inner := Opening(r.sni), PrintNames(r.names);
    NamesAreTidy(r.names);
    TidyPlain(opening);
    TidyPlain([')']);
    TidyConcat([')'], rest);
    TidyConcat(inner, [')'] + rest);
    TidyConcat(opening, inner + ([')'] + rest));
  }

  /** Rules with names on one line in tidy text, with or without # between backticks: nothing of it is a comment. */
  lemma {:induction false} TidyPrint(pieces: seq<Piece>, tail: string)
    requires PrintableDoc(pieces, tail) && Tidy(tail)
    requires forall p | p in pieces :: Tidy(p.glue) && forall n | n in p.rule.names :: '\n' !in n
    ensures Tidy(Print(pieces, tail)) && NoComments(Print(pieces, tail))
    decreases |pieces|
  {
    GuardedIff(Print(pieces, tail));
    if pieces == [] {
    } else {
      assert pieces[0] in pieces && forall q | q in pieces[1..] :: q in pieces;
      TidyPrint(pieces[1..], tail);
      RuleIsTidy(pieces[0].rule, Print(pieces[1..], tail));
      TidyConcat(pieces[0].glue, PrintRule(pieces[0].rule, Print(pieces[1..], tail)));
    }
  }

  /** Printing any rules into any surrounding text and parsing it gives the Host names, then the HostSNI names. */
  lemma PrintThenParse(pieces: seq<Piece>, tail: string, env: Env)
    requires PrintableDoc(pieces, tail) && NoComments(Print(pieces, tail))
    ensures Parse(Print(pieces, tail), env) == Extracted(NamesOf(pieces, false) + NamesOf(pieces, true), env)
  {
    StripWithoutComments(Print(pieces, tail));
    RulesAreFound(pieces, tail, false);
    RulesAreFound(pieces, tail, true);
    InnersRead(pieces, tail, false);
    InnersRead(pieces, tail, true);
  }

  /** Comments at the end of lines on which the backticks pair up make no difference. */
  lemma CommentsDoNotParse(pieces: seq<Piece>, tail: string, env: Env, comments: seq<Option<string>>)
    requires PrintableDoc(pieces, tail) && NoComments(Print(pieces, tail))
    requires |comments| == |Split(Print(pieces, tail), '\n')|
    requires
      var lines := Split(Print(pieces, tail), '\n');
      forall i | 0 <= i < |lines| && comments[i].Some? :: '\n' !in comments[i].value && Ticks(lines[i]) % 2 == 0
    ensures Parse(Join(WithComments(Split(Print(pieces, tail), '\n'), comments), '\n'), env) ==
            Extracted(NamesOf(pieces, false) + NamesOf(pieces, true), env)
  {
    var text := Print(pieces, tail);
    SplitHasNoSeparators(text, '\n');
    CommentsAreIgnored(Split(text, '\n'), comments);
    JoinSplit(text, '\n');
    PrintThenParse(pieces, tail, env);
  }

  // ---- Plain names ----

  lemma {:induction false} NoPlaceholder(t: string)
    requires '{' !in t
    ensures Matches(t) == []
  {
    if t == [] {
    } else {
      NoPlaceholder(t[1..]);
    }
  }

  function LowerAll(names: seq<string>): seq<string> {
    seq(|names|, i requires 0 <= i < |names| => Lower(names[i]))
  }

  lemma PlainResolves(name: string, env: Env)
    requires '{' !in name
    ensures Resolve(name, env) == name
  {
    NoPlaceholder(name);
  }

  lemma LowerAllSnoc(names: seq<string>, name: string)
    ensures LowerAll(names + [name]) == LowerAll(names) + [Lower(name)]
  {
  }

  lemma {:induction false} PlainNamesExtracted(names: seq<string>, env: Env)
    requires forall n | n in names :: n != [] && '{' !in n
    ensures Resolved(names, env) == LowerAll(names)
  {
    if names == [] {
    } else {
      var init, last := names[..|names| - 1], names[|names| - 1];
      assert forall x | x in init :: x in names;
      PlainNamesExtracted(init, env);
      PlainResolves(last, env);
      LowerAllSnoc(init, last);
      assert names == init + [last];
    }
  }

  /** Names without placeholders come back lowercased, each once, in order of first occurrence. */
  lemma PlainRoundTrip(pieces: seq<Piece>, tail: string, env: Env)
    requires PrintableDoc(pieces, tail) && NoComments(Print(pieces, tail))
    requires forall p | p in pieces :: forall n | n in p.rule.names :: '{' !in n
    ensures Parse(Print(pieces, tail), env) ==
            FirstOccurrences(LowerAll(NamesOf(pieces, false) + NamesOf(pieces, true)))
  {
    PrintThenParse(pieces, tail, env);
    NamesCome(pieces, tail, false);
    NamesCome(pieces, tail, true);
    PlainNamesExtracted(NamesOf(pieces, false) + NamesOf(pieces, true), env);
  }

  lemma {:induction false} NamesCome(pieces: seq<Piece>, tail: string, sni: bool)
    requires PrintableDoc(pieces, tail)
    requires forall p | p in pieces :: forall n | n in p.rule.names :: '{' !in n
    ensures forall n | n in NamesOf(pieces, sni) :: n != [] && '{' !in n
    decreases |pieces|
  {
    if pieces == [] {
    } else {
      assert pieces[0] in pieces && forall q | q in pieces[1..] :: q in pieces;
      NamesCome(pieces[1..], tail, sni);
    }
  }

  /** A rule as it is written. */
  lemma OneRule(name: string, sni: bool, env: Env)
    requires Printable(name) && '\n' !in name && '{' !in name
    ensures Parse((if sni then "HostSNI(`" else "Host(`") + name + "`)", env) == [Lower(name)]
  {
    var pieces := [Piece([], Rule(sni, [name]))];
    var text := (if sni then "HostSNI(`" else "Host(`") + name + "`)";
    assert pieces[1..] == [] && NamesOf([], false) == NamesOf([], true) == [];
    assert PrintNames([name]) == ['`'] + (name + ['`']);
    assert Print(pieces, []) == PrintRule(pieces[0].rule, []) == text;
    assert NoOpening([]);
    TidyPrint(pieces, []);
    PlainRoundTrip(pieces, [], env);
    assert NamesOf(pieces, false) + NamesOf(pieces, true) == [name];
    assert LowerAll([name]) == [Lower(name)];
    FirstOccurrencesSnoc([], Lower(name));
    assert [] + [Lower(name)] == [Lower(name)];
  }

  /** What is extracted: every template whose variables are set, resolved and lowercased. */
  lemma {:induction false} ResolvedMembers(templates: seq<string>, env: Env)
    ensures forall h :: h in Resolved(templates, env) <==>
              exists t | t in templates :: Resolve(t, env) != "" && h == Lower(Resolve(t, env))
  {
    if templates == [] {
    } else {
      var init, last := templates[..|templates| - 1], templates[|templates| - 1];
      ResolvedMembers(init, env);
      assert forall t :: t in templates <==> t in init || t == last;
    }
  }

  /** The hosts of a text are those of the quoted templates inside its rules, each of which stands there. */
  lemma ParseMembers(content: string, env: Env)
    ensures forall h :: h in Parse(content, env) <==>
              exists t | t in HostTemplates(Strip(content)) + SniTemplates(Strip(content)) ::
                Resolve(t, env) != "" && h == Lower(Resolve(t, env))
  {
    var templates := HostTemplates(Strip(content)) + SniTemplates(Strip(content));
    ResolvedMembers(templates, env);
    FirstOccurrencesOnce(Resolved(templates, env));
  }
}
