/** What one run of the extraction finds: the emails and kept phones of each
    node string, and their union over the nodes processed. */
module Contacts {
  import opened Scan

  /** `raw.replace(c, '')` */
  function Remove(s: string, c: char): (r: string)
    ensures c !in r
    ensures forall x :: x != c ==> (x in r <==> x in s)
    ensures |r| <= |s|
    decreases |s|
  {
    if s == [] then []
    else (if s[0] == c then [] else [s[0]]) + Remove(s[1..], c)
  }

  /** Every character other than c keeps its number of occurrences, so the
      result is shorter by exactly the number of c's. */
  lemma {:induction false} RemoveCounts(s: string, c: char)
    ensures multiset(Remove(s, c)) == multiset(s)[c := 0]
    ensures |Remove(s, c)| == |s| - multiset(s)[c]
    decreases |s|
  {
    if s != [] {
      RemoveCounts(s[1..], c);
      assert s == [s[0]] + s[1..];
    }
  }

  lemma RemoveCons(x: char, t: string, c: char)
    requires x != c
    ensures Remove([x] + t, c) == [x] + Remove(t, c)
  {
    assert ([x] + t)[1..] == t;
  }

  /** Removing distributes over concatenation, so the characters kept stay in
      their order. */
  lemma {:induction false} RemoveAppend(a: string, b: string, c: char)
    ensures Remove(a + b, c) == Remove(a, c) + Remove(b, c)
    decreases |a|
  {
    if a == [] {
      assert a + b == b;
    } else {
      assert (a + b)[0] == a[0];
      assert (a + b)[1..] == a[1..] + b;
      RemoveAppend(a[1..], b, c);
    }
  }

  /** A string without c is left as it is. */
  lemma {:induction false} RemoveAbsent(s: string, c: char)
    requires c !in s
    ensures Remove(s, c) == s
    decreases |s|
  {
    if s != [] {
      assert s[0] != c;
      RemoveAbsent(s[1..], c);
      assert s == [s[0]] + s[1..];
    }
  }

  /** A raw phone match after `.replace('-', '').replace(' ', '')`: only the
      hyphen and the plain space are removed, not the other whitespace `\s`
      admitted. */
  function Normalize(raw: string): (n: string)
    ensures '-' !in n && ' ' !in n
    ensures forall x :: x != '-' && x != ' ' ==> (x in n <==> x in raw)
    ensures |n| <= |raw|
  {
    Remove(Remove(raw, '-'), ' ')
  }

  /** Normalising keeps every other character as often as it occurs and drops
      exactly the hyphens and plain spaces. */
  lemma NormalizeCounts(raw: string)
    ensures Stripped(Normalize(raw), raw)
    ensures |Normalize(raw)| == |raw| - multiset(raw)['-'] - multiset(raw)[' ']
  {
    RemoveCounts(raw, '-');
    RemoveCounts(Remove(raw, '-'), ' ');
  }

  /** n holds the characters of raw other than `'-'` and `' '`, each as often
      as raw does */
  predicate Stripped(n: string, raw: string) {
    multiset(n) == multiset(raw)['-' := 0][' ' := 0]
  }

  /** The list comprehension over all phone matches of a node: one entry per
      match, holding that match's characters other than `'-'` and `' '`. */
  function Normalized(raws: seq<string>): (ns: seq<string>)
    ensures |ns| == |raws|
    ensures forall k :: 0 <= k < |raws| ==> Stripped(ns[k], raws[k])
  {
    assert forall k :: 0 <= k < |raws| ==> Stripped(Normalize(raws[k]), raws[k]) by {
      forall k | 0 <= k < |raws| {
        NormalizeCounts(raws[k]);
      }
    }
    seq(|raws|, k requires 0 <= k < |raws| => Normalize(raws[k]))
  }

  /** w occurs in s starting at j */
  predicate OccursAt(w: string, s: string, j: nat) {
    j + |w| <= |s| && s[j..j + |w|] == w
  }

  ghost predicate Substring(w: string, s: string) {
    exists j: nat :: OccursAt(w, s, j)
  }

  lemma EmailMatchIsEmail(node: string, m: string)
    requires m in FindAll(EmailPattern, node, 0)
    ensures IsEmail(m) && Substring(m, node)
  {
    var sp := Spans(EmailPattern, node, 0);
    var k :| 0 <= k < |sp| && m == node[sp[k].0..sp[k].1];
    EmailMatchAt(node, sp[k].0, sp[k].1);
  }

  /** The text of an email match is an email occurring at its start. */
  lemma EmailMatchAt(node: string, j: nat, e: nat)
    requires j < e <= |node| && MatchEmailAt(node, j) == Some(e)
    ensures IsEmail(node[j..e]) && OccursAt(node[j..e], node, j)
  {
    MatchEmailAtCorrect(node, j);
    EmailSpanIsEmail(node, j, e);
  }

  lemma EmailMatchesAreEmails(node: string)
    ensures forall m :: m in FindAll(EmailPattern, node, 0) ==> IsEmail(m) && Substring(m, node)
  {
    forall m | m in FindAll(EmailPattern, node, 0) ensures IsEmail(m) && Substring(m, node) {
      EmailMatchIsEmail(node, m);
    }
  }

  /** Emails added for one node: every match, verbatim. Each is an email on its
      own and a substring of the node. */
  function NodeEmails(node: string): (r: set<string>)
    ensures forall e :: e in r ==> IsEmail(e) && Substring(e, node)
  {
    EmailMatchesAreEmails(node);
    set m | m in FindAll(EmailPattern, node, 0)
  }

  lemma PhoneMatchShape(node: string, raw: string)
    requires raw in FindAll(PhonePattern, node, 0)
    ensures var n := Normalize(raw);
      |n| >= 2 && n[0] == '+' && n[1] == '7'
      && forall k :: 2 <= k < |n| ==> IsDigit(n[k]) || (IsSpace(n[k]) && n[k] != ' ')
  {
    FindAllSound(PhonePattern, node, 0);
    var j: nat, end: nat :| 0 <= j < end <= |node| && PhoneSpan(node, j, end) && raw == node[j..end];
    assert forall k :: 2 <= k < |raw| ==> raw[k] == node[j + k];
    NormalizedPhoneShape(raw);
  }

  lemma PhoneMatchesShape(node: string)
    ensures forall n :: n in Normalized(FindAll(PhonePattern, node, 0)) ==>
      |n| >= 2 && n[0] == '+' && n[1] == '7'
      && forall k :: 2 <= k < |n| ==> IsDigit(n[k]) || (IsSpace(n[k]) && n[k] != ' ')
  {
    var raws := FindAll(PhonePattern, node, 0);
    var ns := Normalized(raws);
    forall i | 0 <= i < |ns|
      ensures |ns[i]| >= 2 && ns[i][0] == '+' && ns[i][1] == '7'
        && forall k :: 2 <= k < |ns[i]| ==> IsDigit(ns[i][k]) || (IsSpace(ns[i][k]) && ns[i][k] != ' ')
    {
      assert raws[i] in raws;
      PhoneMatchShape(node, raws[i]);
    }
  }

  /** Phones added for one node: the normalised matches of length 11 or 12
      (the length counts the `+`). Each begins with `+7`, followed only by
      digits and whitespace other than the plain space. */
  function NodePhones(node: string): (r: set<string>)
    ensures forall p :: p in r ==>
      11 <= |p| <= 12 && p[0] == '+' && p[1] == '7' && '-' !in p && ' ' !in p
      && forall k :: 2 <= k < |p| ==> IsDigit(p[k]) || (IsSpace(p[k]) && p[k] != ' ')
  {
    PhoneMatchesShape(node);
    set n | n in Normalized(FindAll(PhonePattern, node, 0)) && 11 <= |n| <= 12
  }

  /** A set that starts empty and receives f(node) for each node in turn */
  function Union(nodes: seq<string>, f: string -> set<string>): set<string>
    decreases |nodes|
  {
    if nodes == [] then {} else Union(nodes[..|nodes| - 1], f) + f(nodes[|nodes| - 1])
  }

  function EmailsOf(nodes: seq<string>): set<string> {
    Union(nodes, NodeEmails)
  }

  function PhonesOf(nodes: seq<string>): set<string> {
    Union(nodes, NodePhones)
  }

  /** The accumulated set is exactly the union of the nodes' contributions. */
  lemma {:induction false} UnionMembership(nodes: seq<string>, f: string -> set<string>, x: string)
    ensures x in Union(nodes, f) <==> exists k :: 0 <= k < |nodes| && x in f(nodes[k])
    decreases |nodes|
  {
    if nodes != [] {
      var init := nodes[..|nodes| - 1];
      UnionMembership(init, f, x);
      assert forall k :: 0 <= k < |init| ==> init[k] == nodes[k];
    }
  }

  /** Duplicates collapse and order does not matter: two node sequences with the
      same members accumulate the same set. */
  lemma UnionSameNodes(a: seq<string>, b: seq<string>, f: string -> set<string>)
    requires forall n :: n in a <==> n in b
    ensures Union(a, f) == Union(b, f)
  {
    forall x ensures x in Union(a, f) <==> x in Union(b, f) {
      UnionMembership(a, f, x);
      UnionMembership(b, f, x);
      if x in Union(a, f) {
        var k :| 0 <= k < |a| && x in f(a[k]);
        assert a[k] in b;
      }
      if x in Union(b, f) {
        var k :| 0 <= k < |b| && x in f(b[k]);
        assert b[k] in a;
      }
    }
  }

  /** Processing a sequence in two parts accumulates the union of the parts. */
  lemma UnionAppend(a: seq<string>, b: seq<string>, f: string -> set<string>)
    ensures Union(a + b, f) == Union(a, f) + Union(b, f)
  {
    forall x ensures x in Union(a + b, f) <==> x in Union(a, f) + Union(b, f) {
      UnionMembership(a + b, f, x);
      UnionMembership(a, f, x);
      UnionMembership(b, f, x);
      if x in Union(a + b, f) {
        var k :| 0 <= k < |a + b| && x in f((a + b)[k]);
        if k >= |a| {
          assert (a + b)[k] == b[k - |a|];
        }
      }
      if x in Union(a, f) {
        var k :| 0 <= k < |a| && x in f(a[k]);
        assert (a + b)[k] == a[k];
      }
      if x in Union(b, f) {
        var k :| 0 <= k < |b| && x in f(b[k]);
        assert (a + b)[|a| + k] == b[k];
      }
    }
  }

  /** The sets only grow while nodes are processed. */
  lemma UnionGrows(nodes: seq<string>, i: nat, j: nat, f: string -> set<string>)
    requires i <= j <= |nodes|
    ensures Union(nodes[..i], f) <= Union(nodes[..j], f)
  {
    assert nodes[..j] == nodes[..i] + nodes[i..j];
    UnionAppend(nodes[..i], nodes[i..j], f);
  }

  /** Every email found is a substring of one of the nodes and matches the
      email pattern as a whole. */
  lemma EmailsAreEmails(nodes: seq<string>, e: string)
    requires e in EmailsOf(nodes)
    ensures IsEmail(e)
    ensures exists k :: 0 <= k < |nodes| && Substring(e, nodes[k])
  {
    UnionMembership(nodes, NodeEmails, e);
  }

  /** A normalised phone match keeps its `+7` and loses every hyphen and plain
      space of the rest. */
  lemma NormalizePhone(raw: string)
    requires |raw| >= 2 && raw[0] == '+' && raw[1] == '7'
    ensures Normalize(raw) == "+7" + Normalize(raw[2..])
  {
    var t := raw[2..];
    assert raw == ['+'] + (['7'] + t);
    RemoveCons('+', ['7'] + t, '-');
    RemoveCons('7', t, '-');
    assert Remove(raw, '-') == ['+'] + (['7'] + Remove(t, '-'));
    RemoveCons('+', ['7'] + Remove(t, '-'), ' ');
    RemoveCons('7', Remove(t, '-'), ' ');
  }

  /** A raw phone match, once normalised, is `+7` followed only by digits and
      whitespace other than the plain space. */
  lemma NormalizedPhoneShape(raw: string)
    requires |raw| >= 2 && raw[0] == '+' && raw[1] == '7'
    requires forall k :: 2 <= k < |raw| ==> IsPhoneChar(raw[k])
    ensures var p := Normalize(raw);
      |p| >= 2 && p[0] == '+' && p[1] == '7'
      && forall k :: 2 <= k < |p| ==> IsDigit(p[k]) || (IsSpace(p[k]) && p[k] != ' ')
  {
    NormalizePhone(raw);
    var p := Normalize(raw);
    var tail := Normalize(raw[2..]);
    forall k | 2 <= k < |p| ensures IsDigit(p[k]) || (IsSpace(p[k]) && p[k] != ' ') {
      assert p[k] == tail[k - 2];
      assert tail[k - 2] in raw[2..];
      var q :| 0 <= q < |raw[2..]| && raw[2..][q] == p[k];
      assert raw[q + 2] == p[k];
    }
  }

  /** Every kept phone is 11 or 12 characters long counting its leading `+`,
      begins with `+7`, and after that holds only digits and whitespace other
      than the plain space; it holds no hyphen and no plain space. */
  lemma KeptPhoneShape(nodes: seq<string>, p: string)
    requires p in PhonesOf(nodes)
    ensures 11 <= |p| <= 12
    ensures p[0] == '+' && p[1] == '7'
    ensures '-' !in p && ' ' !in p
    ensures forall k :: 2 <= k < |p| ==> IsDigit(p[k]) || (IsSpace(p[k]) && p[k] != ' ')
  {
    UnionMembership(nodes, NodePhones, p);
  }

  /** An email in a node that starts the node or follows a character outside
      `[a-zA-Z0-9._@-]`, and ends the node or precedes one outside
      `[a-zA-Z0-9._-]`, is collected verbatim. */
  lemma BorderedEmailCollected(node: string, j: nat, e: nat)
    requires j < e <= |node| && EmailSpan(node, j, e)
    requires j == 0 || !(IsAddrChar(node[j - 1]) || node[j - 1] == '@')
    requires e == |node| || !IsAddrChar(node[e])
    ensures node[j..e] in NodeEmails(node)
  {
    BorderedSpanFound(EmailPattern, node, j, e);
  }

  /** A `+7` number in a node that starts the node or follows a character
      outside `[+\d\s\-]`, and ends the node or precedes one outside
      `[\d\s\-]`, is collected in its normalised form when that form is 11 or
      12 characters long. */
  lemma BorderedPhoneCollected(node: string, j: nat, e: nat)
    requires j < e <= |node| && PhoneSpan(node, j, e)
    requires j == 0 || !(IsPhoneChar(node[j - 1]) || node[j - 1] == '+')
    requires e == |node| || !IsPhoneChar(node[e])
    requires 11 <= |Normalize(node[j..e])| <= 12
    ensures Normalize(node[j..e]) in NodePhones(node)
  {
    BorderedSpanFound(PhonePattern, node, j, e);
    var raws := FindAll(PhonePattern, node, 0);
    var k :| 0 <= k < |raws| && raws[k] == node[j..e];
    var ns := Normalized(raws);
    assert ns[k] == Normalize(node[j..e]);
    assert ns[k] in ns;
  }

  predicate AllDigits(s: string) {
    forall k :: 0 <= k < |s| ==> IsDigit(s[k])
  }

  /** A node that is one number written `+7 DDD DDD DD DD` and a newline. The
      nodes of a parsed page are tags and start with `<`, so this node stands
      for the number's own stretch of text; the general fact behind it is the
      stop condition of `MatchPhoneAt`. */
  predicate LineEndNumber(node: string, a: string, b: string, c: string, d: string) {
    AllDigits(a) && AllDigits(b) && AllDigits(c) && AllDigits(d)
    && |a| == 3 && |b| == 3 && |c| == 2 && |d| == 2
    && node == "+7 " + a + " " + b + " " + c + " " + d + "\n"
  }

  /** The whole of such a node is its one phone match, newline included. */
  lemma LineEndNumberMatch(node: string, a: string, b: string, c: string, d: string)
    requires LineEndNumber(node, a, b, c, d)
    ensures FindAll(PhonePattern, node, 0) == [node]
  {
    var body := " " + a + " " + b + " " + c + " " + d + "\n";
    assert node == "+7" + body;
    forall k | 2 <= k < |node| ensures IsPhoneChar(node[k]) {
      assert node[k] == body[k - 2];
      assert body[k - 2] in body;
      var x := body[k - 2];
      if x in a { var i :| 0 <= i < |a| && a[i] == x; }
      if x in b { var i :| 0 <= i < |b| && b[i] == x; }
      if x in c { var i :| 0 <= i < |c| && c[i] == x; }
      if x in d { var i :| 0 <= i < |d| && d[i] == x; }
    }
    RunMax(node, 3, |node|, IsPhoneChar);
    assert MatchPhoneAt(node, 0) == Some(|node|);
    assert Spans(PhonePattern, node, |node|) == [];
    assert Spans(PhonePattern, node, 0) == [(0, |node|)];
    assert node[0..|node|] == node;
  }

  /** Normalising such a node removes its four spaces and keeps the newline:
      13 characters. */
  lemma LineEndNumberLength(node: string, a: string, b: string, c: string, d: string)
    requires LineEndNumber(node, a, b, c, d)
    ensures |Normalize(node)| == 13
  {
    var p1 := "+7 " + a;
    var p2 := p1 + " " + b;
    var p3 := p2 + " " + c;
    var p4 := p3 + " " + d;
    assert node == p4 + "\n";
    assert '-' !in a && ' ' !in a;
    assert multiset(p1) == multiset("+7 ") + multiset(a);
    GroupCounts(p1, b);
    GroupCounts(p2, c);
    GroupCounts(p3, d);
    assert multiset(node) == multiset(p4) + multiset("\n");
    NormalizeCounts(node);
  }

  /** A space and a run of digits add one space and no hyphen. */
  lemma GroupCounts(p: string, x: string)
    requires AllDigits(x)
    ensures multiset(p + " " + x)[' '] == multiset(p)[' '] + 1
    ensures multiset(p + " " + x)['-'] == multiset(p)['-']
  {
    assert '-' !in x && ' ' !in x;
    assert multiset(p + " " + x) == multiset(p) + multiset(" ") + multiset(x);
  }

  /** A node that is one number followed by a newline, such as
      "+7 912 345 67 89\n", contributes no phone: its match holds the newline,
      so the normalised phone is 13 characters long and fails the length
      filter. */
  lemma LineEndNumberDropped(node: string, a: string, b: string, c: string, d: string)
    requires LineEndNumber(node, a, b, c, d)
    ensures NodePhones(node) == {}
  {
    LineEndNumberMatch(node, a, b, c, d);
    LineEndNumberLength(node, a, b, c, d);
    var ns := Normalized(FindAll(PhonePattern, node, 0));
    assert ns == [Normalize(node)];
  }

  /** The example above, as a node of its own */
  lemma NewlineEndedPhoneDropped()
    ensures NodePhones("+7 912 345 67 89\n") == {}
  {
    LineEndNumberDropped("+7 912 345 67 89\n", "912", "345", "67", "89");
  }
}
