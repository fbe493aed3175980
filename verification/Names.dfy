/** Hostnames, node names and their orders.  Each `char` stands for one byte of a Go string. */
module Names {

  datatype Option<+T> = None | Some(value: T)

  function LowerChar(c: char): (r: char)
    ensures !('A' <= r <= 'Z')
  {
    if 'A' <= c <= 'Z' then (c as int - 'A' as int + 'a' as int) as char else c
  }

  /** ASCII lowercasing: the case folding of section 2.3.3 of RFC 1035. */
  function Lower(s: string): (r: string)
    ensures |r| == |s|
  {
    seq(|s|, i requires 0 <= i < |s| => LowerChar(s[i]))
  }

  lemma LowerIdempotent(s: string)
    ensures Lower(Lower(s)) == Lower(s)
  {
    assert forall i | 0 <= i < |s| :: LowerChar(LowerChar(s[i])) == LowerChar(s[i]);
  }

  function Members(xs: seq<string>): set<string> { set x | x in xs }

  lemma MembersSnoc(xs: seq<string>, j: nat)
    requires j < |xs|
    ensures Members(xs[..j + 1]) == Members(xs[..j]) + {xs[j]}
  {
    assert xs[..j + 1] == xs[..j] + [xs[j]];
  }

  /** One letter in its two forms: they lie 32 apart. */
  predicate CapitalAndSmall(c: char, d: char) { 'A' <= c <= 'Z' && 'a' <= d <= 'z' && d as int == c as int + 32 }

  /** Names that differ at most in the case of letters. */
  predicate CaseVariants(a: string, b: string) {
    |a| == |b| &&
    forall i | 0 <= i < |a| :: a[i] == b[i] || CapitalAndSmall(a[i], b[i]) || CapitalAndSmall(b[i], a[i])
  }

  lemma LowerCharEqualIff(c: char, d: char)
    ensures LowerChar(c) == LowerChar(d) <==> c == d || CapitalAndSmall(c, d) || CapitalAndSmall(d, c)
  {
  }

  /** Two names have one key exactly when they are case variants of each other. */
  lemma LowerEqualIff(a: string, b: string)
    ensures Lower(a) == Lower(b) <==> CaseVariants(a, b)
  {
    if |a| == |b| {
      forall i | 0 <= i < |a|
        ensures Lower(a)[i] == Lower(b)[i] <==>
                a[i] == b[i] || CapitalAndSmall(a[i], b[i]) || CapitalAndSmall(b[i], a[i])
      {
        LowerCharEqualIff(a[i], b[i]);
      }
    }
  }

  /** The names that are their own keys are those without capital letters. */
  lemma LowerFixedIff(s: string)
    ensures Lower(s) == s <==> forall i | 0 <= i < |s| :: !('A' <= s[i] <= 'Z')
  {
    if Lower(s) == s {
      forall i | 0 <= i < |s| ensures !('A' <= s[i] <= 'Z') { assert Lower(s)[i] == s[i]; }
    }
  }

  /** The keys under which a list of hostnames is stored. */
  function Keys(hosts: seq<string>): set<string> {
    set h | h in hosts :: Lower(h)
  }

  lemma KeysConcat(a: seq<string>, b: seq<string>)
    ensures Keys(a + b) == Keys(a) + Keys(b)
  {
    forall k | k in Keys(a) + Keys(b) ensures k in Keys(a + b) {
      if k in Keys(a) {
        var h :| h in a && Lower(h) == k;
        assert h in a + b;
      } else {
        var h :| h in b && Lower(h) == k;
        assert h in a + b;
      }
    }
  }

  lemma KeysSnoc(hosts: seq<string>)
    requires hosts != []
    ensures Keys(hosts) == Keys(hosts[..|hosts| - 1]) + {Lower(hosts[|hosts| - 1])}
  {
    var last := hosts[|hosts| - 1];
    assert hosts == hosts[..|hosts| - 1] + [last];
    KeysConcat(hosts[..|hosts| - 1], [last]);
    assert Keys([last]) == {Lower(last)} by { assert last in [last]; }
  }

  /** Go's `<=` on strings: bytewise lexicographic order. */
  predicate StringLe(a: string, b: string) {
    a == [] || (b != [] && (a[0] < b[0] || (a[0] == b[0] && StringLe(a[1..], b[1..]))))
  }

  lemma {:induction false} StringLeRefl(a: string)
    ensures StringLe(a, a)
  {
    if a == [] {
    } else {
      StringLeRefl(a[1..]);
    }
  }

  lemma {:induction false} StringLeTotal(a: string, b: string)
    ensures StringLe(a, b) || StringLe(b, a)
  {
    if a == [] || b == [] {
    } else {
      StringLeTotal(a[1..], b[1..]);
    }
  }

  lemma {:induction false} StringLeAntisymmetric(a: string, b: string)
    requires StringLe(a, b) && StringLe(b, a)
    ensures a == b
  {
    if a == [] || b == [] {
    } else {
      StringLeAntisymmetric(a[1..], b[1..]);
      assert a == [a[0]] + a[1..] && b == [b[0]] + b[1..];
    }
  }

  lemma {:induction false} StringLeTransitive(a: string, b: string, c: string)
    requires StringLe(a, b) && StringLe(b, c)
    ensures StringLe(a, c)
  {
    if a == [] || a[0] < b[0] || b[0] < c[0] {
    } else {
      StringLeTransitive(a[1..], b[1..], c[1..]);
    }
  }

  /** How far a and b agree. */
  function Agreement(a: string, b: string): (n: nat)
    ensures n <= |a| && n <= |b| && a[..n] == b[..n]
    ensures n < |a| && n < |b| ==> a[n] != b[n]
  {
    if a == [] || b == [] || a[0] != b[0] then 0
    else
      var n := Agreement(a[1..], b[1..]);
      assert a[..n + 1] == [a[0]] + a[1..][..n] && b[..n + 1] == [b[0]] + b[1..][..n];
      n + 1
  }

  /** b is the greater string: it extends a, or has the greater character where the two first differ. */
  predicate Exceeds(b: string, a: string) {
    var n := Agreement(a, b);
    n < |b| && (n == |a| || a[n] < b[n])
  }

  lemma {:induction false} ExceedsIff(b: string, a: string)
    ensures Exceeds(b, a) <==> !StringLe(b, a)
  {
    if a == [] || b == [] || a[0] != b[0] {
    } else {
      ExceedsIff(b[1..], a[1..]);
    }
  }

  /** A last-write-wins stamp: timestamp first, then node name. */
  datatype Stamp = Stamp(time: int, node: string)

  predicate StampLe(a: Stamp, b: Stamp) {
    a.time < b.time || (a.time == b.time && StringLe(a.node, b.node))
  }

  lemma StampTotalOrder(a: Stamp, b: Stamp, c: Stamp)
    ensures StampLe(a, a)
    ensures StampLe(a, b) || StampLe(b, a)
    ensures StampLe(a, b) && StampLe(b, a) ==> a == b
    ensures StampLe(a, b) && StampLe(b, c) ==> StampLe(a, c)
  {
    StringLeRefl(a.node);
    StringLeTotal(a.node, b.node);
    if StringLe(a.node, b.node) && StringLe(b.node, a.node) { StringLeAntisymmetric(a.node, b.node); }
    if StringLe(a.node, b.node) && StringLe(b.node, c.node) { StringLeTransitive(a.node, b.node, c.node); }
  }
}
