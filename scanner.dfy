/**
  What the renaming tool reads out of the destination directory listing:
  the identifiers ("authors") of the names that match REGEX_GET_ID, and,
  per author, the numbers already taken (the list comprehension of
  `get_busy_numbers`).

  The example lemmas take their string literals as parameters pinned by
  `requires` rather than writing them in the body: this keeps the proofs
  cheap for the solver.
*/
module Scanner {
  import opened Wrappers
  import opened Text
  import opened Pattern

  /**
    The number one listed name contributes to `busy_numbers[author]`. Two
    independent tests: the name literally starts with `author + "-"`, and
    REGEX_GET_NUM matches it (possibly at a hyphen other than that one).
  */
  function Counted(name: string, author: string): Option<nat> {
    if author + "-" <= name then MatchNum(name) else None
  }

  /** The comprehension `[int(m.group(1)) for file in listing if (m := ...) and file.startswith(author + "-")]`. */
  function NumbersFor(listing: seq<string>, author: string): (r: seq<nat>)
    ensures |r| <= |listing|
    decreases |listing|
  {
    if listing == [] then []
    else
      var rest := NumbersFor(listing[1..], author);
      match Counted(listing[0], author)
      case Some(n) => [n] + rest
      case None => rest
  }

  /** The busy numbers of `author` are exactly the numbers its listed names are counted with. */
  lemma {:induction false} NumbersForMembers(listing: seq<string>, author: string)
    ensures forall n :: n in NumbersFor(listing, author) <==>
              exists i :: 0 <= i < |listing| && Counted(listing[i], author) == Some(n)
    decreases |listing|
  {
    if listing != [] {
      NumbersForMembers(listing[1..], author);
      assert forall i :: 1 <= i < |listing| ==> listing[i] == listing[1..][i - 1];
    }
  }

  /** The comprehension distributes over concatenation of listings: order is kept and nothing is lost. */
  lemma {:induction false} NumbersForAppend(a: seq<string>, b: seq<string>, author: string)
    ensures NumbersFor(a + b, author) == NumbersFor(a, author) + NumbersFor(b, author)
    decreases |a|
  {
    if a != [] {
      assert (a + b)[0] == a[0] && (a + b)[1..] == a[1..] + b;
      NumbersForAppend(a[1..], b, author);
    } else {
      assert a + b == b;
    }
  }

  /**
    Round trip: a name the tool builds for `author` and `num`, once present
    in the listing, makes `num` busy for `author` (same conditions as
    Pattern.BuiltNameRoundTrip).
  */
  lemma BuiltNameIsBusy(listing: seq<string>, author: string, num: nat, ext: string)
    requires |author| >= 1 && AllLine(author) && NoSplitInside(author)
    requires |ext| >= 1 && ext[0] == '.' && TailMatches(ext[1..])
    ensures author + "-" + Decimal(num) + ext in listing ==> num in NumbersFor(listing, author)
  {
    var name := author + "-" + Decimal(num) + ext;
    if name in listing {
      NumbersForMembers(listing, author);
      BuiltNameRoundTrip(author, num, ext);
      assert author + "-" <= name;
      var i :| 0 <= i < |listing| && listing[i] == name;
      assert Counted(listing[i], author) == Some(num);
    }
  }

  /** A name that does not match the pattern contributes no number, whatever the author. */
  lemma UnmatchedNameIgnored(name: string, author: string)
    requires MatchNum(name).None?
    ensures NumbersFor([name], author) == []
  {
    assert [name][1..] == [];
  }

  /** The prefix test is on the raw name: " Bob-1.txt" contributes nothing to "Bob", although its stripped identifier is "Bob". */
  lemma PrefixTestIsExact(name: string)
    requires name == " Bob-1.txt"
    ensures StrippedId(name) == Some("Bob")
    ensures NumbersFor([name], "Bob") == []
  {
    var author, ds, ext := name[..4], name[5..6], name[6..];
    assert name == author + "-" + ds + ext && author == " Bob" && ds == "1" && ext == ".txt";
    assert TailMatches(ext[1..]) by { assert ext[1..] == "txt"; }
    DigitNameMatches(author, ds, ext);
    StripOneLeadingSpace(author);
    assert author[1..] == "Bob";
    assert !("Bob-" <= name) by { assert name[0] != 'B'; }
    assert [name][1..] == [];
  }

  /** A sample listed name `author-ds.ext`: its stripped identifier and its number. */
  lemma SampleName(name: string, author: string, ds: string, ext: string, n: nat)
    requires name == author + "-" + ds + ext
    requires |author| >= 1 && AllLine(author) && NoSplitInside(author)
    requires !IsSpace(author[0]) && !IsSpace(author[|author| - 1])
    requires |ds| >= 1 && AllDigits(ds) && DecimalValue(ds) == n
    requires |ext| >= 1 && ext[0] == '.' && TailMatches(ext[1..])
    ensures StrippedId(name) == Some(author)
    ensures MatchNum(name) == Some(n)
  {
    DigitNameMatches(author, ds, ext);
    StripUnchanged(author);
  }

  /** "Alice-1.jpg" counts 1 for "Alice" and nothing for "Bob". */
  lemma ExampleNameAlice1(s: string, alice: string, bob: string)
    requires s == "Alice-1.jpg" && alice == "Alice" && bob == "Bob"
    ensures StrippedId(s) == Some(alice)
    ensures Counted(s, alice) == Some(1) && Counted(s, bob).None?
  {
    var author, ds, ext := s[..5], s[6..7], s[7..];
    assert s == author + "-" + ds + ext && author == alice && ds == "1" && ext == ".jpg";
    assert DecimalValue(ds) == 1 by { assert ds[..0] == []; }
    SampleName(s, author, ds, ext, 1);
    assert alice + "-" <= s;
    assert !(bob + "-" <= s) by { assert s[0] != bob[0]; }
  }

  /** "Alice-2.png" counts 2 for "Alice" and nothing for "Bob". */
  lemma ExampleNameAlice2(s: string, alice: string, bob: string)
    requires s == "Alice-2.png" && alice == "Alice" && bob == "Bob"
    ensures StrippedId(s) == Some(alice)
    ensures Counted(s, alice) == Some(2) && Counted(s, bob).None?
  {
    var author, ds, ext := s[..5], s[6..7], s[7..];
    assert s == author + "-" + ds + ext && author == alice && ds == "2" && ext == ".png";
    assert DecimalValue(ds) == 2 by { assert ds[..0] == []; }
    SampleName(s, author, ds, ext, 2);
    assert alice + "-" <= s;
    assert !(bob + "-" <= s) by { assert s[0] != bob[0]; }
  }

  /** "Bob-1.txt" counts 1 for "Bob" and nothing for "Alice". */
  lemma ExampleNameBob1(s: string, alice: string, bob: string)
    requires s == "Bob-1.txt" && alice == "Alice" && bob == "Bob"
    ensures StrippedId(s) == Some(bob)
    ensures Counted(s, bob) == Some(1) && Counted(s, alice).None?
  {
    var author, ds, ext := s[..3], s[4..5], s[5..];
    assert s == author + "-" + ds + ext && author == bob && ds == "1" && ext == ".txt";
    assert DecimalValue(ds) == 1 by { assert ds[..0] == []; }
    SampleName(s, author, ds, ext, 1);
    assert bob + "-" <= s;
    assert !(alice + "-" <= s) by { assert s[0] != alice[0]; }
  }

  /** A one-name listing whose name passes both tests counts exactly that name's number. */
  lemma NumbersForOne(name: string, author: string)
    requires author + "-" <= name && MatchNum(name).Some?
    ensures NumbersFor([name], author) == [MatchNum(name).value]
  {
    assert [name][1..] == [];
  }

  /** The comprehension over a three-name listing in which the first two names count. */
  lemma NumbersForFirstTwo(listing: seq<string>, author: string, m: nat, n: nat)
    requires |listing| == 3
    requires Counted(listing[0], author) == Some(m) && Counted(listing[1], author) == Some(n)
    requires Counted(listing[2], author).None?
    ensures NumbersFor(listing, author) == [m, n]
  {
    var t1 := listing[1..];
    var t2 := t1[1..];
    assert t1[0] == listing[1] && t2 == [listing[2]] && t2[1..] == [];
    assert NumbersFor(t2, author) == [];
    assert NumbersFor(t1, author) == [n];
  }

  /** The comprehension over a three-name listing in which only the last name counts. */
  lemma NumbersForLastOnly(listing: seq<string>, author: string, m: nat)
    requires |listing| == 3
    requires Counted(listing[0], author).None? && Counted(listing[1], author).None?
    requires Counted(listing[2], author) == Some(m)
    ensures NumbersFor(listing, author) == [m]
  {
    var t1 := listing[1..];
    var t2 := t1[1..];
    assert t1[0] == listing[1] && t2 == [listing[2]] && t2[1..] == [];
    assert NumbersFor(t2, author) == [m];
    assert NumbersFor(t1, author) == [m];
  }

  /** Discovery over a three-name listing is three steps of the loop. */
  lemma CollectThree(listing: seq<string>)
    requires |listing| == 3
    ensures Collect([], listing) == AddAuthor(AddAuthor(AddAuthor([], listing[0]), listing[1]), listing[2])
  {
    var f0: seq<string> := [];
    var f1 := f0 + [listing[0]];
    var f2 := f1 + [listing[1]];
    SplitThree(listing);
    CollectSnoc([], f0, listing[0]);
    CollectSnoc([], f1, listing[1]);
    CollectSnoc([], f2, listing[2]);
  }

  /** Discovery over the identifiers a, a, b of three names gives a, then b. */
  lemma AddIdTwoAuthors(a: string, b: string)
    requires a != b
    ensures AddId(AddId(AddId([], Some(a)), Some(a)), Some(b)) == [a, b]
  {
    assert [] + [a] == [a];
    assert [a] + [b] == [a, b];
  }

  /**
    The example directory "Alice-1.jpg", "Alice-2.png", "Bob-1.txt": the
    authors are "Alice" and "Bob", in that order, the busy numbers of
    "Alice" are 1 and 2, in listing order, and those of "Bob" are 1.
  */
  lemma ListingExample(listing: seq<string>, alice: string, bob: string)
    requires |listing| == 3
    requires listing[0] == "Alice-1.jpg" && listing[1] == "Alice-2.png" && listing[2] == "Bob-1.txt"
    requires alice == "Alice" && bob == "Bob"
    ensures NumbersFor(listing, alice) == [1, 2]
    ensures NumbersFor(listing, bob) == [1]
    ensures Collect([], listing) == [alice, bob]
    ensures SortStrings(Collect([], listing)) == [alice, bob]
  {
    ExampleNameAlice1(listing[0], alice, bob);
    ExampleNameAlice2(listing[1], alice, bob);
    ExampleNameBob1(listing[2], alice, bob);
    NumbersForFirstTwo(listing, alice, 1, 2);
    NumbersForLastOnly(listing, bob, 1);
    assert alice != bob && Less(alice, bob) by {
      assert alice[0] == 'A' && bob[0] == 'B';
    }
    CollectThree(listing);
    AddIdTwoAuthors(alice, bob);
    SortPair(alice, bob);
  }

  // ---------------------------------------------------------------------
  // get_authors
  // ---------------------------------------------------------------------

  /** `REGEX_GET_ID.match(name).group(1).strip()`, if the name matches. */
  function StrippedId(name: string): Option<string> {
    match MatchId(name)
    case None => None
    case Some(g) => Some(Strip(g))
  }

  /** `author` is the stripped identifier of some listed name. */
  ghost predicate ListedAuthor(listing: seq<string>, author: string) {
    exists i :: 0 <= i < |listing| && StrippedId(listing[i]) == Some(author)
  }

  /** Appends the identifier, if there is one and it is not yet present. */
  function AddId(authors: seq<string>, id: Option<string>): seq<string> {
    match id
    case None => authors
    case Some(a) => if a in authors then authors else authors + [a]
  }

  /** One iteration of the discovery loop: append the name's stripped identifier unless already present. */
  function AddAuthor(authors: seq<string>, name: string): seq<string> {
    AddId(authors, StrippedId(name))
  }

  /**
    The discovery loop of `get_authors` over `names`, starting from `acc`:
    earlier entries stay where they are, no duplicate is introduced, and the
    entries are exactly those of `acc` plus the stripped identifiers of the
    matching names.
  */
  function Collect(acc: seq<string>, names: seq<string>): (r: seq<string>)
    ensures acc <= r
    ensures NoDup(acc) ==> NoDup(r)
    decreases |names|
  {
    if names == [] then acc
    else
      var prev := Collect(acc, names[..|names| - 1]);
      AddAuthorFacts(prev, names[|names| - 1]);
      AddAuthor(prev, names[|names| - 1])
  }

  /** The discovered entries are exactly those of `acc` plus the stripped identifiers of the matching names. */
  lemma {:induction false} CollectMembers(acc: seq<string>, names: seq<string>)
    ensures forall a :: a in Collect(acc, names) <==> a in acc || ListedAuthor(names, a)
    decreases |names|
  {
    if names != [] {
      var front := names[..|names| - 1];
      var last := names[|names| - 1];
      CollectMembers(acc, front);
      ListedAuthorSnoc(front, last);
      AddAuthorFacts(Collect(acc, front), last);
      SplitLast(names);
    }
  }

  lemma AddAuthorFacts(prev: seq<string>, name: string)
    ensures prev <= AddAuthor(prev, name)
    ensures NoDup(prev) ==> NoDup(AddAuthor(prev, name))
    ensures forall a :: a in AddAuthor(prev, name) <==> a in prev || StrippedId(name) == Some(a)
  {
  }

  /** The author list `get_authors` leaves behind when it starts from an empty list. */
  function Authors(listing: seq<string>): seq<string> {
    SortStrings(Collect([], listing))
  }

  /**
    The author list is sorted, free of duplicates, and holds exactly the
    stripped identifiers of the matching names of the listing.
  */
  lemma AuthorsSpec(listing: seq<string>)
    ensures Sorted(Authors(listing)) && NoDup(Authors(listing))
    ensures forall a :: a in Authors(listing) <==> ListedAuthor(listing, a)
  {
    CollectMembers([], listing);
    SortStringsSpec(Collect([], listing));
    SortStringsMembers(Collect([], listing));
  }

  /** One more name extends the discovery by one step. */
  lemma CollectSnoc(acc: seq<string>, names: seq<string>, name: string)
    ensures Collect(acc, names + [name]) == AddAuthor(Collect(acc, names), name)
  {
    assert (names + [name])[..|names|] == names;
  }

  /** One more name of the listing extends the discovery over its prefix by that name's identifier. */
  lemma CollectPrefixStep(acc: seq<string>, listing: seq<string>, i: nat)
    requires i < |listing|
    ensures Collect(acc, listing[..i + 1]) == AddId(Collect(acc, listing[..i]), StrippedId(listing[i]))
  {
    assert listing[..i + 1] == listing[..i] + [listing[i]];
    CollectSnoc(acc, listing[..i], listing[i]);
  }

  /** A three-element sequence built up one element at a time. */
  lemma SplitThree(xs: seq<string>)
    requires |xs| == 3
    ensures xs == [] + [xs[0]] + [xs[1]] + [xs[2]]
  {
  }

  /** A non-empty sequence is its front followed by its last element. */
  lemma SplitLast(xs: seq<string>)
    requires xs != []
    ensures xs == xs[..|xs| - 1] + [xs[|xs| - 1]]
  {
  }

  lemma ListedAuthorSnoc(front: seq<string>, last: string)
    ensures forall a :: ListedAuthor(front + [last], a) <==> ListedAuthor(front, a) || StrippedId(last) == Some(a)
  {
    var names := front + [last];
    forall a ensures ListedAuthor(names, a) <==> ListedAuthor(front, a) || StrippedId(last) == Some(a) {
      if ListedAuthor(front, a) {
        var i :| 0 <= i < |front| && StrippedId(front[i]) == Some(a);
        assert names[i] == front[i];
      }
      if StrippedId(last) == Some(a) {
        assert names[|front|] == last;
      }
      if ListedAuthor(names, a) {
        var i :| 0 <= i < |names| && StrippedId(names[i]) == Some(a);
        if i < |front| { assert front[i] == names[i]; }
      }
    }
  }
}
