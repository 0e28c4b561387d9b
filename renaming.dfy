/**
  The numbering step of `rename_files`: the loop that picks the smallest
  numbers not in use for the chosen author, and the comprehension that pairs
  them with the selected files to form the new paths.

  The example lemmas take their string literals as parameters pinned by
  `requires` rather than writing them in the body: this keeps the proofs
  cheap for the solver.
*/
module Renaming {
  import opened Text
  import opened Pattern
  import opened Paths
  import opened Scanner

  /** `set(xs)`. */
  function ToSet(xs: seq<nat>): set<nat> {
    set n | n in xs
  }

  /**
    `free` is the answer the allocation loop must give: `count` numbers,
    each at least 1 and not in `used`, strictly ascending, and no unused
    number up to the last one skipped.
  */
  ghost predicate IsLowestFree(used: set<nat>, count: nat, free: seq<nat>) {
    && |free| == count
    && (forall i :: 0 <= i < |free| ==> 1 <= free[i] && free[i] !in used)
    && (forall i, j :: 0 <= i < j < |free| ==> free[i] < free[j])
    && (|free| > 0 ==> forall x :: 1 <= x <= free[|free| - 1] && x !in used ==> x in free)
  }

  /**
    The `while len(free_numbers) < len(prev_files)` loop: counts up from 1
    and keeps every number that is not in `used`. It stops for every finite
    `used`, at the latest after `count + |used|`.
  */
  method AllocateFree(used: set<nat>, count: nat) returns (free: seq<nat>)
    ensures IsLowestFree(used, count, free)
    ensures forall i :: 0 <= i < |free| ==> free[i] <= count + |used|
  {
    free := [];
    var current := 1;
    ghost var skipped: set<nat> := {};
    while |free| < count
      invariant |free| <= count
      invariant forall i :: 0 <= i < |free| ==> 1 <= free[i] < current && free[i] !in used
      invariant forall i, j :: 0 <= i < j < |free| ==> free[i] < free[j]
      invariant forall x :: 1 <= x < current && x !in used ==> x in free
      invariant skipped <= used && forall x :: x in skipped ==> x < current
      invariant current == |free| + |skipped| + 1
      decreases count + |used| + 1 - current
    {
      SubsetCardinality(skipped, used);
      if current !in used {
        free := free + [current];
      } else {
        skipped := skipped + {current};
      }
      current := current + 1;
    }
    SubsetCardinality(skipped, used);
  }

  lemma SubsetCardinality(a: set<nat>, b: set<nat>)
    requires a <= b
    ensures |a| <= |b|
  {
    assert b == a + (b - a);
  }

  /** Any admissible answer that agrees with another on the first `k` places is no larger at place `k`. */
  lemma LowestFreeStep(used: set<nat>, count: nat, a: seq<nat>, b: seq<nat>, k: nat)
    requires IsLowestFree(used, count, a) && IsLowestFree(used, count, b)
    requires k < count && a[..k] == b[..k]
    ensures b[k] <= a[k]
  {
    assert forall i :: 0 <= i < k ==> a[i] == a[..k][i] == b[..k][i] == b[i];
    if a[k] <= b[count - 1] {
      assert a[k] in b;
      assert forall m :: 0 <= m < k ==> b[m] != a[k] by {
        forall m | 0 <= m < k ensures b[m] != a[k] { assert b[m] == a[m] < a[k]; }
      }
      var m :| 0 <= m < count && b[m] == a[k];
      assert k <= m;
    }
  }

  lemma {:induction false} LowestFreeAgree(used: set<nat>, count: nat, a: seq<nat>, b: seq<nat>, k: nat)
    requires IsLowestFree(used, count, a) && IsLowestFree(used, count, b) && k <= count
    ensures a[..k] == b[..k]
    decreases k
  {
    if k > 0 {
      LowestFreeAgree(used, count, a, b, k - 1);
      LowestFreeStep(used, count, a, b, k - 1);
      LowestFreeStep(used, count, b, a, k - 1);
      assert a[..k] == a[..k - 1] + [a[k - 1]];
      assert b[..k] == b[..k - 1] + [b[k - 1]];
    }
  }

  /** There is only one admissible answer, so the allocation is deterministic: asking twice gives the same numbers. */
  lemma LowestFreeUnique(used: set<nat>, count: nat, a: seq<nat>, b: seq<nat>)
    requires IsLowestFree(used, count, a) && IsLowestFree(used, count, b)
    ensures a == b
  {
    LowestFreeAgree(used, count, a, b, count);
    assert a == a[..count] && b == b[..count];
  }

  /** Taken {1, 2, 3}, two files: the answer is 4, 5. */
  lemma AllocateAfterTaken(free: seq<nat>)
    ensures IsLowestFree({1, 2, 3}, 2, free) <==> free == [4, 5]
  {
    assert IsLowestFree({1, 2, 3}, 2, [4, 5]);
    if IsLowestFree({1, 2, 3}, 2, free) { LowestFreeUnique({1, 2, 3}, 2, free, [4, 5]); }
  }

  /** Nothing taken, three files: the answer is 1, 2, 3. */
  lemma AllocateFromEmpty(free: seq<nat>)
    ensures IsLowestFree({}, 3, free) <==> free == [1, 2, 3]
  {
    assert IsLowestFree({}, 3, [1, 2, 3]) by {
      assert forall x :: 1 <= x <= 3 ==> x in [1, 2, 3];
    }
    if IsLowestFree({}, 3, free) { LowestFreeUnique({}, 3, free, [1, 2, 3]); }
  }

  /** Taken {2}, two files: the gap below is filled first, giving 1, 3. */
  lemma AllocateAroundGap(free: seq<nat>)
    ensures IsLowestFree({2}, 2, free) <==> free == [1, 3]
  {
    assert IsLowestFree({2}, 2, [1, 3]);
    if IsLowestFree({2}, 2, free) { LowestFreeUnique({2}, 2, free, [1, 3]); }
  }

  /** Taken {7}, one file: the answer is 1, not 8. */
  lemma AllocateBelowTaken(free: seq<nat>)
    ensures IsLowestFree({7}, 1, free) <==> free == [1]
  {
    assert IsLowestFree({7}, 1, [1]);
    if IsLowestFree({7}, 1, free) { LowestFreeUnique({7}, 1, free, [1]); }
  }

  /** 1 taken, one file: the answer is 2. */
  lemma AllocateAboveOne(free: seq<nat>)
    ensures IsLowestFree({1}, 1, free) <==> free == [2]
  {
    assert IsLowestFree({1}, 1, [2]);
    if IsLowestFree({1}, 1, free) { LowestFreeUnique({1}, 1, free, [2]); }
  }

  // ---------------------------------------------------------------------
  // The new paths
  // ---------------------------------------------------------------------

  /** The file name `f"{author}-{num}{ext}"` for one selected file. */
  function NewName(author: string, num: nat, file: string): string {
    author + "-" + Decimal(num) + Ext(file)
  }

  /**
    The comprehension over `zip(prev_files, free_numbers)`: one new path per
    pair, in the order of the selected files, as long as the shorter list.
  */
  function NewNames(destDir: string, author: string, prevFiles: seq<string>, numbers: seq<nat>): (r: seq<string>)
    ensures |r| == if |prevFiles| <= |numbers| then |prevFiles| else |numbers|
    ensures forall i :: 0 <= i < |r| ==> r[i] == Join(destDir, NewName(author, numbers[i], prevFiles[i]))
    decreases |prevFiles|
  {
    if prevFiles == [] || numbers == [] then []
    else [Join(destDir, NewName(author, numbers[0], prevFiles[0]))]
         + NewNames(destDir, author, prevFiles[1..], numbers[1..])
  }

  /** A digit run followed by nothing or by a dot is determined by the string it starts. */
  lemma DigitRunPrefixDetermined(dm: string, em: string, dn: string, en: string)
    requires AllDigits(dm) && AllDigits(dn)
    requires (em == [] || em[0] == '.') && (en == [] || en[0] == '.')
    ensures dm + em == dn + en ==> dm == dn
  {
    var xm, xn := dm + em, dn + en;
    if |dm| < |dn| {
      assert |xm| == |dm| || xm[|dm|] == '.';
      assert xn[|dm|] == dn[|dm|];
    } else if |dn| < |dm| {
      assert |xn| == |dn| || xn[|dn|] == '.';
      assert xm[|dn|] == dm[|dn|];
    } else if xm == xn {
      assert dm == xm[..|dm|] && dn == xn[..|dn|];
    }
  }

  /** Two names built for one author with different numbers differ, whatever the extensions. */
  lemma NewNameInjective(author: string, m: nat, n: nat, f: string, g: string)
    ensures NewName(author, m, f) == NewName(author, n, g) ==> m == n
  {
    var dm, dn := Decimal(m), Decimal(n);
    var em, en := Ext(f), Ext(g);
    var xm, xn := NewName(author, m, f), NewName(author, n, g);
    var a := |author| + 1;
    assert xm[a..] == dm + em && xn[a..] == dn + en;
    DigitRunPrefixDetermined(dm, em, dn, en);
    DecimalRoundTrip(m);
    DecimalRoundTrip(n);
  }

  /** Distinct numbers give distinct destination paths: a plan never moves two files onto one name. */
  lemma NewNamesDistinct(destDir: string, author: string, prevFiles: seq<string>, numbers: seq<nat>)
    requires NoDup(numbers)
    ensures NoDup(NewNames(destDir, author, prevFiles, numbers))
  {
    var r := NewNames(destDir, author, prevFiles, numbers);
    forall i, j | 0 <= i < j < |r| ensures r[i] != r[j] {
      JoinInjective(destDir, NewName(author, numbers[i], prevFiles[i]), NewName(author, numbers[j], prevFiles[j]));
      NewNameInjective(author, numbers[i], numbers[j], prevFiles[i], prevFiles[j]);
    }
  }

  /** A name of one non-dot character and a dot-led suffix free of dots and separators has that suffix as extension. */
  lemma ExtAfterFirstChar(f: string)
    requires |f| >= 2 && f[0] != '.' && f[0] != Sep && f[1] == '.'
    requires forall i :: 2 <= i < |f| ==> f[i] != '.' && f[i] != Sep
    ensures Ext(f) == f[1..]
  {
    var sepIndex := LastIndex(f, Sep, |f|);
    var dotIndex := LastIndex(f, '.', |f|);
    assert sepIndex == -1;
    assert dotIndex == 1;
    assert HasNonDot(f, 0, 1);
  }

  /** Two selected files and two numbers give exactly two new paths, in file order. */
  lemma NewNamesOfTwo(destDir: string, author: string, files: seq<string>, numbers: seq<nat>)
    requires |files| == 2 && |numbers| == 2
    ensures NewNames(destDir, author, files, numbers)
            == [Join(destDir, NewName(author, numbers[0], files[0])),
                Join(destDir, NewName(author, numbers[1], files[1]))]
  {
  }

  /** The first file of the example plan: "a.jpg" with number 3 goes to "/dest/Carol-3.jpg". */
  lemma FirstPlannedPath(f: string)
    requires f == "a.jpg"
    ensures Join("/dest", NewName("Carol", 3, f)) == "/dest/Carol-3.jpg"
  {
    ExtAfterFirstChar(f);
    assert f[1..] == ".jpg";
    assert Decimal(3) == "3";
  }

  /** The second file of the example plan: "b.png" with number 4 goes to "/dest/Carol-4.png". */
  lemma SecondPlannedPath(f: string)
    requires f == "b.png"
    ensures Join("/dest", NewName("Carol", 4, f)) == "/dest/Carol-4.png"
  {
    ExtAfterFirstChar(f);
    assert f[1..] == ".png";
    assert Decimal(4) == "4";
  }

  /**
    The plan for "a.jpg" and "b.png" under "/dest" by "Carol" with free
    numbers 3 and 4: "/dest/Carol-3.jpg", then "/dest/Carol-4.png".
  */
  lemma PlanExample(files: seq<string>, r: seq<string>)
    requires |files| == 2 && files[0] == "a.jpg" && files[1] == "b.png"
    requires r == NewNames("/dest", "Carol", files, [3, 4])
    ensures r == ["/dest/Carol-3.jpg", "/dest/Carol-4.png"]
  {
    NewNamesOfTwo("/dest", "Carol", files, [3, 4]);
    FirstPlannedPath(files[0]);
    SecondPlannedPath(files[1]);
  }

  /**
    Repeated runs extend the sequence without collisions: once the planned
    names are in the listing, the numbers they carry are busy for `author`,
    so a later allocation for the same author avoids every one of them.
    Holds for authors without newline or `-<digits>.` window and sources
    whose extension is a dot and at least one further character.
  */
  lemma RerunAvoidsPlannedNumbers(listing: seq<string>, author: string, prevFiles: seq<string>,
                                  numbers: seq<nat>, later: seq<nat>, count: nat)
    requires |author| >= 1 && AllLine(author) && NoSplitInside(author)
    requires |numbers| == |prevFiles|
    requires forall i :: 0 <= i < |prevFiles| ==> |Ext(prevFiles[i])| >= 2 && AllLine(Ext(prevFiles[i]))
    requires forall i :: 0 <= i < |prevFiles| ==> NewName(author, numbers[i], prevFiles[i]) in listing
    requires IsLowestFree(ToSet(NumbersFor(listing, author)), count, later)
    ensures forall i, j :: 0 <= i < |numbers| && 0 <= j < |later| ==> later[j] != numbers[i]
  {
    forall i | 0 <= i < |numbers| ensures numbers[i] in ToSet(NumbersFor(listing, author)) {
      var ext := Ext(prevFiles[i]);
      assert TailMatches(ext[1..]);
      BuiltNameIsBusy(listing, author, numbers[i], ext);
    }
  }

  /**
    A planned name never lands on a name already listed for the author, as
    long as the source file has an extension of at least one character after
    the dot: such a listed name would have made its number busy.
  */
  lemma NewNameNotListed(listing: seq<string>, author: string, file: string, count: nat, free: seq<nat>, i: int)
    requires |author| >= 1 && AllLine(author) && NoSplitInside(author)
    requires |Ext(file)| >= 2 && AllLine(Ext(file))
    requires IsLowestFree(ToSet(NumbersFor(listing, author)), count, free) && 0 <= i < |free|
    ensures NewName(author, free[i], file) !in listing
  {
    var ext := Ext(file);
    assert TailMatches(ext[1..]);
    BuiltNameIsBusy(listing, author, free[i], ext);
  }

  /** "Bob-1" has no dot, so it is not matched and gives "Bob" no busy number. */
  lemma UndottedNameCountsNothing(listing: seq<string>)
    requires listing == ["Bob-1"]
    ensures NumbersFor(listing, "Bob") == []
  {
    var name := listing[0];
    assert forall j :: 0 <= j < |name| ==> name[j] != '.';
    assert MatchNum(name).None?;
    UnmatchedNameIgnored(name, "Bob");
  }

  /** "/src/notes" has no extension. */
  lemma NotesHasNoExtension(file: string)
    requires file == "/src/notes"
    ensures Ext(file) == []
  {
    assert file[4] == Sep;
    assert LastIndex(file, Sep, |file|) == 4;
    assert forall j :: 0 <= j < |file| ==> file[j] != '.';
  }

  /**
    Without an extension the guarantee is lost: "Bob-1" does not match the
    number pattern, so 1 stays free for "Bob", and the extensionless
    "/src/notes" is planned onto "Bob-1", a name already listed.
  */
  lemma ExtensionlessSourceCanCollide(listing: seq<string>, file: string, free: seq<nat>)
    requires listing == ["Bob-1"] && file == "/src/notes"
    requires IsLowestFree(ToSet(NumbersFor(listing, "Bob")), 1, free)
    ensures free == [1]
    ensures NewName("Bob", free[0], file) in listing
  {
    UndottedNameCountsNothing(listing);
    assert ToSet(NumbersFor(listing, "Bob")) == {};
    assert 1 in free;
    NotesHasNoExtension(file);
    assert Decimal(1) == "1";
    assert NewName("Bob", 1, file) == "Bob" + "-" + "1" + [];
    assert "Bob" + "-" + "1" + [] == listing[0];
  }

  /**
    "X-1.y-2.jpg" is split at its first hyphen, so for the author "X-1.y",
    whose name holds a `-<digits>.` window, it counts 1 and not 2.
  */
  lemma WindowNameCountsFirstNumber(listing: seq<string>, author: string)
    requires listing == ["X-1.y-2.jpg"] && author == "X-1.y"
    ensures NumbersFor(listing, author) == [1]
  {
    SplitTakesLeftmostHyphen(listing[0]);
    assert author + "-" == listing[0][..6];
    NumbersForOne(listing[0], author);
  }

  /** "a.jpg" numbered 2 for "X-1.y" is planned as "X-1.y-2.jpg". */
  lemma WindowPlannedName(author: string, file: string)
    requires author == "X-1.y" && file == "a.jpg"
    ensures NewName(author, 2, file) == "X-1.y-2.jpg"
  {
    ExtAfterFirstChar(file);
    assert file[1..] == ".jpg";
    assert Decimal(2) == "2";
  }

  /**
    An author holding a `-<digits>.` window loses the guarantee too: with
    "X-1.y-2.jpg" listed, the author "X-1.y" has only 1 busy, gets 2, and
    "a.jpg" is planned onto "X-1.y-2.jpg", a name already listed.
  */
  lemma WindowAuthorCanCollide(listing: seq<string>, author: string, file: string, free: seq<nat>)
    requires listing == ["X-1.y-2.jpg"] && author == "X-1.y" && file == "a.jpg"
    requires IsLowestFree(ToSet(NumbersFor(listing, author)), 1, free)
    ensures free == [2]
    ensures NewName(author, free[0], file) in listing
  {
    WindowNameCountsFirstNumber(listing, author);
    assert ToSet(NumbersFor(listing, author)) == {1};
    AllocateAboveOne(free);
    WindowPlannedName(author, file);
    assert NewName(author, free[0], file) == listing[0];
  }
}
