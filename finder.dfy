/** The contact-extraction routine of ContactsFinder: one run clears the result
    text, counts the document nodes into the progress maximum, scans each node
    for emails and phones, steps the progress bar once per node, lists what was
    found after the error message (if any) and resets the progress bar. The
    network fetch and the HTML parse are the `Fetch` outcome it is given. */
module Finder {
  import opened Scan
  import opened Contacts

  /** Stand-ins for the two messages of the `errors` module */
  const INVALID_URL: string := "Invalid URL"
  const UNDEFINED: string := "Undefined error"

  /** How far the fetch and the parse got */
  datatype Fetch =
    | Fetched(nodes: seq<string>)             // `str(i)` of every node of `parser.findAll()`
    | InvalidUrl                              // `session.get` raised `InvalidURL`
    | FetchFailed                             // another exception before the nodes were counted
    | Interrupted(done: seq<string>, pending: seq<string>)
                                              // another exception after the nodes `done` were processed
  {
    /** The nodes whose number became the progress maximum */
    function Nodes(): seq<string> {
      match this
      case Fetched(ns) => ns
      case Interrupted(d, p) => d + p
      case _ => []
    }

    /** Whether the run got as far as counting the nodes */
    predicate Counted() {
      Fetched? || Interrupted?
    }

    /** The nodes whose matches were added before the run ended */
    function Processed(): (ps: seq<string>)
      ensures |ps| <= |Nodes()| && ps == Nodes()[..|ps|]
    {
      match this
      case Fetched(ns) => ns
      case Interrupted(d, p) => assert (d + p)[..|d|] == d; d
      case _ => []
    }

    /** The text put before the listing: nothing after a successful run, the
        invalid-URL message after a malformed URL, and the generic message
        after any other failure. */
    function Banner(): (b: seq<string>)
      ensures b == [] <==> Fetched?
      ensures b == [INVALID_URL] <==> InvalidUrl?
      ensures b == [UNDEFINED] <==> !Fetched? && !InvalidUrl?
    {
      match this
      case Fetched(_) => []
      case InvalidUrl => [INVALID_URL]
      case _ => [UNDEFINED]
    }
  }

  /** Each item followed by a newline, one chunk per item */
  function Lines(items: seq<string>): seq<string> {
    seq(|items|, k requires 0 <= k < |items| => items[k] + "\n")
  }

  /** order lists every member of items exactly once (a set's iteration order) */
  ghost predicate Enumerates(order: seq<string>, items: set<string>) {
    |order| == |items| && forall x :: x in order <==> x in items
  }

  /** The text a run leaves: the banner, then every email, then every phone
      accumulated from the processed nodes, each on its own line, in some order. */
  ghost predicate Rendered(text: seq<string>, f: Fetch) {
    exists oe, op ::
      Enumerates(oe, EmailsOf(f.Processed())) && Enumerates(op, PhonesOf(f.Processed()))
      && text == f.Banner() + Lines(oe) + Lines(op)
  }

  lemma RenderedBy(text: seq<string>, f: Fetch, emails: set<string>, phones: set<string>,
                   oe: seq<string>, op: seq<string>)
    requires emails == EmailsOf(f.Processed()) && phones == PhonesOf(f.Processed())
    requires Enumerates(oe, emails) && Enumerates(op, phones)
    requires text == f.Banner() + Lines(oe) + Lines(op)
    ensures Rendered(text, f)
  {
  }

  /** The progress values 1, 2, ..., n */
  function Ticks(n: nat): seq<int> {
    seq(n, k => k + 1)
  }

  lemma ScanStep(nodes: seq<string>, i: nat)
    requires i < |nodes|
    ensures EmailsOf(nodes[..i + 1]) == EmailsOf(nodes[..i]) + NodeEmails(nodes[i])
    ensures PhonesOf(nodes[..i + 1]) == PhonesOf(nodes[..i]) + NodePhones(nodes[i])
    ensures Ticks(i + 1) == Ticks(i) + [i + 1]
  {
    UnionStep(nodes, i, NodeEmails);
    UnionStep(nodes, i, NodePhones);
    TicksStep(i);
  }

  lemma TicksStep(n: nat)
    ensures Ticks(n + 1) == Ticks(n) + [n + 1]
  {
    var t, u := Ticks(n + 1), Ticks(n) + [n + 1];
    assert forall k :: 0 <= k < |t| ==> t[k] == u[k];
  }

  lemma LineInjective(x: string, y: string)
    requires x + "\n" == y + "\n"
    ensures x == y
  {
    assert x == (x + "\n")[..|x|];
    assert y == (y + "\n")[..|y|];
  }

  lemma LinesMember(items: seq<string>, x: string)
    ensures x + "\n" in Lines(items) <==> x in items
  {
    if x + "\n" in Lines(items) {
      var k :| 0 <= k < |items| && Lines(items)[k] == x + "\n";
      LineInjective(x, items[k]);
    }
    if x in items {
      var k :| 0 <= k < |items| && items[k] == x;
      assert Lines(items)[k] == x + "\n";
    }
  }

  lemma ListingParts(text: seq<string>, banner: seq<string>, emails: set<string>, phones: set<string>,
                     oe: seq<string>, op: seq<string>, x: string)
    requires Enumerates(oe, emails) && Enumerates(op, phones)
    requires text == banner + Lines(oe) + Lines(op)
    ensures var b, ne := |banner|, |emails|;
      |text| == b + ne + |phones|
      && text[..b] == banner
      && (x in emails <==> x + "\n" in text[b..b + ne])
      && (x in phones <==> x + "\n" in text[b + ne..])
  {
    var b, ne := |banner|, |emails|;
    assert text[b..b + ne] == Lines(oe);
    assert text[b + ne..] == Lines(op);
    LinesMember(oe, x);
    LinesMember(op, x);
  }

  /** The rendered text holds the banner, then one line per accumulated email,
      then one line per accumulated phone, and a string is listed in either part
      exactly when it was accumulated there. */
  lemma RenderedLists(text: seq<string>, f: Fetch, x: string)
    requires Rendered(text, f)
    ensures var b, ne := |f.Banner()|, |EmailsOf(f.Processed())|;
      |text| == b + ne + |PhonesOf(f.Processed())|
      && text[..b] == f.Banner()
      && (x in EmailsOf(f.Processed()) <==> x + "\n" in text[b..b + ne])
      && (x in PhonesOf(f.Processed()) <==> x + "\n" in text[b + ne..])
  {
    var emails, phones := EmailsOf(f.Processed()), PhonesOf(f.Processed());
    var oe, op :| Enumerates(oe, emails) && Enumerates(op, phones)
                  && text == f.Banner() + Lines(oe) + Lines(op);
    ListingParts(text, f.Banner(), emails, phones, oe, op, x);
  }

  lemma UnionStep(nodes: seq<string>, i: nat, f: string -> set<string>)
    requires i < |nodes|
    ensures Union(nodes[..i + 1], f) == Union(nodes[..i], f) + f(nodes[i])
  {
    assert nodes[..i + 1][..i] == nodes[..i];
  }

  /** The email loop of one node: every match is added to the set. */
  method AddAll(acc: set<string>, matches: seq<string>) returns (r: set<string>)
    ensures r == acc + set m | m in matches
  {
    r := acc;
    var j := 0;
    while j < |matches|
      invariant 0 <= j <= |matches|
      invariant r == acc + set m | m in matches[..j]
    {
      assert matches[..j + 1] == matches[..j] + [matches[j]];
      r := r + {matches[j]};
      j := j + 1;
    }
    assert matches[..j] == matches;
  }

  /** The phone loop of one node: each normalised match is added to the set
      when its length, counting the `+`, is 11 or 12. */
  method AddKept(acc: set<string>, matches: seq<string>) returns (r: set<string>)
    ensures r == acc + set m | m in matches && 11 <= |m| <= 12
  {
    r := acc;
    var j := 0;
    while j < |matches|
      invariant 0 <= j <= |matches|
      invariant r == acc + set m | m in matches[..j] && 11 <= |m| <= 12
    {
      assert matches[..j + 1] == matches[..j] + [matches[j]];
      if 11 <= |matches[j]| <= 12 {
        r := r + {matches[j]};
      }
      j := j + 1;
    }
    assert matches[..j] == matches;
  }

  /** One node's turn in the loop: its email matches and its normalised phone
      matches of the right length are added to the two sets. */
  method AddNode(emails: set<string>, phones: set<string>, node: string)
    returns (emails': set<string>, phones': set<string>)
    ensures emails' == emails + NodeEmails(node) && phones' == phones + NodePhones(node)
  {
    var emailMatches := FindAll(EmailPattern, node, 0);
    var phoneMatches := Normalized(FindAll(PhonePattern, node, 0));
    emails' := AddAll(emails, emailMatches);
    phones' := AddKept(phones, phoneMatches);
  }

  class ContactsFinder {
    /** The result text widget, as the chunks inserted since it was last cleared */
    var text: seq<string>
    /** The progress bar */
    var progressValue: int
    var progressMax: int
    /** Every value the progress bar has been given, in order */
    ghost var progressShown: seq<int>

    /** A fresh window: empty text, and a progress bar at 0 of Tk's default 100 */
    constructor ()
      ensures text == [] && progressValue == 0 && progressMax == 100 && progressShown == []
    {
      text := [];
      progressValue := 0;
      progressMax := 100;
      progressShown := [];
    }

    /** Deletes everything in the text widget */
    method ClearText()
      modifies this`text
      ensures text == []
    {
      text := [];
    }

    /** Appends a chunk at the end of the text widget */
    method Insert(chunk: string)
      modifies this`text
      ensures text == old(text) + [chunk]
    {
      text := text + [chunk];
    }

    /** Moves the progress bar on by one */
    method Step()
      modifies this`progressValue, this`progressShown
      ensures progressValue == old(progressValue) + 1
      ensures progressShown == old(progressShown) + [progressValue]
    {
      progressValue := progressValue + 1;
      progressShown := progressShown + [progressValue];
    }

    /** Puts the progress bar back to 0 */
    method ResetProgress()
      modifies this`progressValue, this`progressShown
      ensures progressValue == 0
      ensures progressShown == old(progressShown) + [0]
    {
      progressValue := 0;
      progressShown := progressShown + [0];
    }

    /** Appends one line per member of the set, in the set's own iteration
        order */
    method InsertLines(items: set<string>) returns (ghost order: seq<string>)
      modifies this`text
      ensures Enumerates(order, items)
      ensures text == old(text) + Lines(order)
    {
      order := [];
      var rest := items;
      while rest != {}
        invariant forall x :: x in items <==> x in order || x in rest
        invariant forall x :: x in order ==> x !in rest
        invariant |order| + |rest| == |items|
        invariant text == old(text) + Lines(order)
        decreases rest
      {
        var x :| x in rest;
        Insert(x + "\n");
        assert Lines(order + [x]) == Lines(order) + [x + "\n"];
        order := order + [x];
        rest := rest - {x};
      }
    }

    /** The `for` loop over the first `stop` nodes: each node's email and
        phone matches are added and the progress bar steps once. */
    method ScanNodes(nodes: seq<string>, stop: nat) returns (emails: set<string>, phones: set<string>)
      requires stop <= |nodes| && progressValue == 0
      modifies this`progressValue, this`progressShown
      ensures emails == EmailsOf(nodes[..stop]) && phones == PhonesOf(nodes[..stop])
      ensures progressValue == stop
      ensures progressShown == old(progressShown) + Ticks(stop)
    {
      emails, phones := {}, {};
      var i := 0;
      while i < stop
        invariant 0 <= i <= stop
        invariant emails == EmailsOf(nodes[..i]) && phones == PhonesOf(nodes[..i])
        invariant progressValue == i
        invariant progressShown == old(progressShown) + Ticks(i)
      {
        emails, phones := AddNode(emails, phones, nodes[i]);
        Step();
        ScanStep(nodes, i);
        i := i + 1;
      }
    }

    /** The first part of a run: the text is cleared and, once the nodes are
        counted, their number becomes the progress maximum and the nodes
        processed before the run ended are scanned. */
    method Collect(f: Fetch) returns (emails: set<string>, phones: set<string>)
      requires progressValue == 0
      modifies this`text, this`progressMax, this`progressValue, this`progressShown
      ensures text == []
      ensures emails == EmailsOf(f.Processed()) && phones == PhonesOf(f.Processed())
      ensures progressMax == if f.Counted() then |f.Nodes()| else old(progressMax)
      ensures progressValue == |f.Processed()|
      ensures progressShown == old(progressShown) + Ticks(|f.Processed()|)
    {
      emails, phones := {}, {};
      ClearText();
      if f.Counted() {
        progressMax := |f.Nodes()|;
        emails, phones := ScanNodes(f.Nodes(), |f.Processed()|);
      } else {
        assert Ticks(0) == [];
      }
    }

    /** The last part of a run: the message for a failure, if any, replaces
        the text; then every email and every phone is listed on a line of its
        own, and the progress bar goes back to 0. */
    method Report(f: Fetch, emails: set<string>, phones: set<string>)
      returns (ghost oe: seq<string>, ghost op: seq<string>)
      requires text == []
      modifies this`text, this`progressValue, this`progressShown
      ensures Enumerates(oe, emails) && Enumerates(op, phones)
      ensures text == f.Banner() + Lines(oe) + Lines(op)
      ensures progressValue == 0
      ensures progressShown == old(progressShown) + [0]
    {
      if f.InvalidUrl? {
        ClearText();
        Insert(INVALID_URL);
      } else if !f.Fetched? {
        ClearText();
        Insert(UNDEFINED);
      }
      assert text == f.Banner();
      oe := InsertLines(emails);
      op := InsertLines(phones);
      ResetProgress();
    }

    /** One run of `__get_contacts`. Between runs the progress value is 0: the
        constructor leaves it there and so does every run. */
    method GetContacts(f: Fetch)
      requires progressValue == 0
      modifies this
      ensures progressValue == 0
      ensures progressMax == if f.Counted() then |f.Nodes()| else old(progressMax)
      ensures progressShown == old(progressShown) + Ticks(|f.Processed()|) + [0]
      ensures Rendered(text, f)
    {
      var emails, phones := Collect(f);
      ghost var oe, op := Report(f, emails, phones);
      RenderedBy(text, f, emails, phones, oe, op);
    }
  }

  /** The progress bar never passes its maximum in a run: the values it shows
      are 1, ..., the number of processed nodes, which the node count bounds. */
  lemma ProgressBounded(f: Fetch)
    requires f.Counted()
    ensures forall k :: 0 <= k < |f.Processed()| ==> 1 <= Ticks(|f.Processed()|)[k] <= |f.Nodes()|
    ensures f.Fetched? ==> |f.Processed()| == |f.Nodes()|
  {
    var n := |f.Processed()|;
    assert f.Processed() == f.Nodes()[..n];
  }
}
