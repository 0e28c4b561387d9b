/**
  The two filename patterns of the renaming tool,
    REGEX_GET_ID  = `^(.+?)-\d+\..+$`   (captures the identifier)
    REGEX_GET_NUM = `^.+?-(\d+)\..+$`   (captures the number)
  as applied by Python's `re.match`. Both have the same shape and differ only
  in the group they capture, so one matcher serves both.

  Python semantics kept here: `.` is any character except '\n'; `.+?` is
  non-greedy, so the leftmost admissible hyphen wins; `\d+` is greedy but a
  '.' must follow it, so only the maximal digit run can succeed; `$` matches
  at the end of the string or just before a final '\n'.
*/
module Pattern {
  import opened Wrappers
  import opened Text

  /** No character that `.` refuses. */
  predicate AllLine(s: string) {
    forall i :: 0 <= i < |s| ==> s[i] != '\n'
  }

  /** The tail `.+$`: one or more non-newline characters, optionally followed by one final newline. */
  predicate TailMatches(t: string) {
    (|t| >= 1 && AllLine(t)) || (|t| >= 2 && t[|t| - 1] == '\n' && AllLine(t[..|t| - 1]))
  }

  /**
    The pattern matches `s` with the identifier group `s[..k]` and the
    digit group `s[k + 1..j]`; `s[k]` is the hyphen and `s[j]` the dot.
  */
  predicate MatchesAt(s: string, k: int, j: int) {
    1 <= k && k + 1 < j < |s|
    && AllLine(s[..k]) && s[k] == '-' && AllDigits(s[k + 1..j]) && s[j] == '.'
    && TailMatches(s[j + 1..])
  }

  /** The match `re.match` reports: the one with the shortest identifier group. */
  ghost predicate LeftmostAt(s: string, k: int, j: int) {
    MatchesAt(s, k, j) && forall k', j' :: k' < k ==> !MatchesAt(s, k', j')
  }

  /** Length of the maximal run of digits that starts at `i`. */
  function DigitRun(s: string, i: nat): (n: nat)
    requires i <= |s|
    ensures i + n <= |s| && AllDigits(s[i..i + n])
    ensures i + n < |s| ==> !IsDigit(s[i + n])
    decreases |s| - i
  {
    if i < |s| && IsDigit(s[i]) then
      var m := DigitRun(s, i + 1);
      assert s[i..i + 1 + m] == [s[i]] + s[i + 1..i + 1 + m];
      1 + m
    else 0
  }

  /** For a given hyphen position the digit group is forced: it is the maximal digit run. */
  lemma DigitGroupForced(s: string, k: int, j: int)
    ensures MatchesAt(s, k, j) ==> j == k + 1 + DigitRun(s, k + 1)
  {
    if 1 <= k < |s| {
      var e := k + 1 + DigitRun(s, k + 1);
      if k < j < e {
        assert IsDigit(s[j]) by { assert s[k + 1..e][j - k - 1] == s[j]; }
      } else if e < j <= |s| {
        assert s[k + 1..j][e - k - 1] == s[e];
      }
    }
  }

  /** The backtracking step for one candidate hyphen position `k`: the dot position, if the rest matches. */
  function TryAt(s: string, k: nat): (r: Option<nat>)
    requires 1 <= k < |s|
    ensures r.Some? ==> k + 1 < r.value < |s| && AllDigits(s[k + 1..r.value])
  {
    if s[k] != '-' then None
    else
      var j := k + 1 + DigitRun(s, k + 1);
      if j == k + 1 || j >= |s| || s[j] != '.' || !TailMatches(s[j + 1..]) then None
      else Some(j)
  }

  /** With a newline-free prefix, `TryAt` finds the match at `k` if there is one. */
  lemma TryAtSpec(s: string, k: nat)
    requires 1 <= k < |s| && AllLine(s[..k])
    ensures TryAt(s, k).Some? ==> MatchesAt(s, k, TryAt(s, k).value)
    ensures TryAt(s, k).None? ==> forall j :: !MatchesAt(s, k, j)
  {
    if s[k] == '-' && TryAt(s, k).None? {
      forall j' | MatchesAt(s, k, j') ensures false { DigitGroupForced(s, k, j'); }
    }
  }

  /** Tries hyphen positions `k`, `k + 1`, ... in order; a newline ends the search since `.` cannot cross it. */
  function SearchFrom(s: string, k: nat): (r: Option<(nat, nat)>)
    requires 1 <= k <= |s|
    ensures r.Some? ==> k <= r.value.0 && r.value.0 + 1 < r.value.1 < |s| && AllDigits(s[r.value.0 + 1..r.value.1])
    decreases |s| - k
  {
    if k == |s| then None
    else match TryAt(s, k)
      case Some(j) => Some((k, j))
      case None => if s[k] == '\n' then None else SearchFrom(s, k + 1)
  }

  /** The search from `k` reports the match with the smallest hyphen position at or after `k`. */
  lemma {:induction false} SearchFromSpec(s: string, k: nat)
    requires 1 <= k <= |s| && AllLine(s[..k])
    ensures SearchFrom(s, k).Some? ==>
              var (k0, j0) := SearchFrom(s, k).value;
              k <= k0 && MatchesAt(s, k0, j0) && forall k', j :: k <= k' < k0 ==> !MatchesAt(s, k', j)
    ensures SearchFrom(s, k).None? ==> forall k', j :: k <= k' ==> !MatchesAt(s, k', j)
    decreases |s| - k
  {
    if k < |s| {
      TryAtSpec(s, k);
      if TryAt(s, k).None? {
        if s[k] == '\n' {
          forall k': int | k < k' <= |s| ensures !AllLine(s[..k']) {
            assert s[..k'][k] == '\n';
          }
        } else {
          assert s[..k + 1] == s[..k] + [s[k]];
          SearchFromSpec(s, k + 1);
        }
      }
    }
  }

  /** `re.match` of either pattern: the positions of the hyphen and of the dot, if it matches. */
  function Match(s: string): (r: Option<(nat, nat)>)
    ensures r.Some? ==> 1 <= r.value.0 && r.value.0 + 1 < r.value.1 < |s| && AllDigits(s[r.value.0 + 1..r.value.1])
  {
    if |s| == 0 || s[0] == '\n' then None else SearchFrom(s, 1)
  }

  /** The matcher is sound and complete: it reports the leftmost match, and nothing exactly when no match exists. */
  lemma MatchSpec(s: string)
    ensures Match(s).Some? ==> LeftmostAt(s, Match(s).value.0, Match(s).value.1)
    ensures Match(s).None? <==> forall k, j :: !MatchesAt(s, k, j)
  {
    if |s| > 0 {
      if s[0] == '\n' {
        forall k | 1 <= k <= |s| ensures !AllLine(s[..k]) { assert s[..k][0] == '\n'; }
      } else {
        SearchFromSpec(s, 1);
      }
    }
  }

  /** The leftmost match is the only match with the shortest identifier group. */
  lemma MatchIsLeftmost(s: string, k: int, j: int)
    requires LeftmostAt(s, k, j)
    ensures Match(s) == Some((k, j))
  {
    MatchSpec(s);
    var r := Match(s);
    assert r.Some?;
    var (k0, j0) := r.value;
    assert k0 == k;
    DigitGroupForced(s, k, j);
    DigitGroupForced(s, k0, j0);
  }

  /** `REGEX_GET_ID.match(s).group(1)`, or None when the name does not match. */
  function MatchId(s: string): Option<string> {
    match Match(s)
    case None => None
    case Some((k, _)) => Some(s[..k])
  }

  /** `int(REGEX_GET_NUM.match(s).group(1))`, or None when the name does not match. */
  function MatchNum(s: string): Option<nat> {
    match Match(s)
    case None => None
    case Some((k, j)) => Some(DecimalValue(s[k + 1..j]))
  }

  /** The identifier group is a proper prefix ending just before the hyphen of the leftmost match, and exists exactly when some match does. */
  lemma MatchIdSpec(s: string)
    ensures MatchId(s).None? <==> forall k, j :: !MatchesAt(s, k, j)
    ensures MatchId(s).Some? ==>
              var id := MatchId(s).value;
              |id| < |s| && id == s[..|id|] && exists j :: LeftmostAt(s, |id|, j)
  {
    MatchSpec(s);
    if Match(s).Some? {
      var (k, j) := Match(s).value;
      assert LeftmostAt(s, |s[..k]|, j);
    }
  }

  /** The number group is the value of the digits between the hyphen and the dot of the leftmost match, and exists exactly when some match does. */
  lemma MatchNumSpec(s: string)
    ensures MatchNum(s).None? <==> forall k, j :: !MatchesAt(s, k, j)
    ensures MatchNum(s).Some? ==>
              exists k, j :: LeftmostAt(s, k, j) && MatchNum(s).value == DecimalValue(s[k + 1..j])
  {
    MatchSpec(s);
  }

  /** The two patterns accept exactly the same names. */
  lemma IdAndNumAgree(s: string)
    ensures MatchId(s).Some? <==> MatchNum(s).Some?
  {
    MatchSpec(s);
  }

  // ---------------------------------------------------------------------
  // Names of the shape `author-digits.ext`
  // ---------------------------------------------------------------------

  /** `author[k..j + 1]` is a `-<digits>.` window. */
  predicate SplitAt(author: string, k: int, j: int)
    requires 0 <= k < j < |author|
  {
    author[k] == '-' && author[j] == '.' && AllDigits(author[k + 1..j])
  }

  /** No `-<digits>.` window starts at index 1 or later inside `author`. */
  predicate NoSplitInside(author: string) {
    forall k, j :: 1 <= k && k + 1 < j < |author| ==> !SplitAt(author, k, j)
  }

  /**
    In `author + "-" + ds + ext` no match puts its hyphen inside `author`, and
    a match at the hyphen after `author` takes exactly the digits `ds`.
  */
  lemma NoEarlySplit(author: string, ds: string, ext: string, k: int, j: int)
    requires NoSplitInside(author) && AllDigits(ds) && |ds| >= 1
    requires ext == [] || ext[0] == '.'
    ensures MatchesAt(author + "-" + ds + ext, k, j) && k <= |author|
            ==> k == |author| && j == |author| + 1 + |ds|
  {
    var s := author + "-" + ds + ext;
    var a := |author|;
    var e := a + 1 + |ds|;
    if 1 <= k && k + 1 < j < a {
      assert s[k + 1..j] == author[k + 1..j];
      assert s[k] == author[k] && s[j] == author[j];
      assert !SplitAt(author, k, j);
    } else if j == a {
      assert s[j] == '-';
    } else if a < j < e {
      assert s[j] == ds[j - a - 1];
    } else if 0 <= k < a < j <= |s| {
      assert s[k + 1..j][a - k - 1] == s[a];
    } else if k == a && e < j <= |s| {
      assert s[k + 1..j][|ds|] == s[e];
    }
  }

  /**
    `author-ds.ext` is split right after `author`, provided `author` is
    non-empty, has no newline and no `-<digits>.` window of its own, and the
    extension is a dot followed by a tail that `.+$` accepts.
  */
  lemma BuiltNameSplit(author: string, ds: string, ext: string)
    requires |author| >= 1 && AllLine(author) && NoSplitInside(author)
    requires |ds| >= 1 && AllDigits(ds)
    requires |ext| >= 1 && ext[0] == '.' && TailMatches(ext[1..])
    ensures Match(author + "-" + ds + ext) == Some((|author|, |author| + 1 + |ds|))
  {
    BuiltNameLeftmost(author, ds, ext);
    MatchIsLeftmost(author + "-" + ds + ext, |author|, |author| + 1 + |ds|);
  }

  /** Under the conditions of BuiltNameSplit, `author-ds.ext` has identifier `author` and digit group `ds`. */
  lemma DigitNameMatches(author: string, ds: string, ext: string)
    requires |author| >= 1 && AllLine(author) && NoSplitInside(author)
    requires |ds| >= 1 && AllDigits(ds)
    requires |ext| >= 1 && ext[0] == '.' && TailMatches(ext[1..])
    ensures MatchId(author + "-" + ds + ext) == Some(author)
    ensures MatchNum(author + "-" + ds + ext) == Some(DecimalValue(ds))
  {
    BuiltNameSplit(author, ds, ext);
    GroupsOfBuiltName(author + "-" + ds + ext, author, ds, ext);
  }

  /** Once the match of `author-ds.ext` is known to split after `author`, the groups are `author` and `ds`. */
  lemma GroupsOfBuiltName(s: string, author: string, ds: string, ext: string)
    requires s == author + "-" + ds + ext
    requires Match(s) == Some((|author|, |author| + 1 + |ds|))
    ensures MatchId(s) == Some(author)
    ensures MatchNum(s) == Some(DecimalValue(ds))
  {
    assert s[..|author|] == author;
    assert s[|author| + 1..|author| + 1 + |ds|] == ds;
  }

  /** The match of `author-ds.ext` described position by position. */
  lemma BuiltNameLeftmost(author: string, ds: string, ext: string)
    requires |author| >= 1 && AllLine(author) && NoSplitInside(author)
    requires |ds| >= 1 && AllDigits(ds)
    requires |ext| >= 1 && ext[0] == '.' && TailMatches(ext[1..])
    ensures LeftmostAt(author + "-" + ds + ext, |author|, |author| + 1 + |ds|)
  {
    var s := author + "-" + ds + ext;
    var a := |author|;
    var e := a + 1 + |ds|;
    BuiltNameMatchesAt(author, ds, ext);
    forall k, j ensures MatchesAt(s, k, j) && k <= a ==> k == a && j == e {
      NoEarlySplit(author, ds, ext, k, j);
    }
  }

  lemma BuiltNameMatchesAt(author: string, ds: string, ext: string)
    requires |author| >= 1 && AllLine(author)
    requires |ds| >= 1 && AllDigits(ds)
    requires |ext| >= 1 && ext[0] == '.' && TailMatches(ext[1..])
    ensures MatchesAt(author + "-" + ds + ext, |author|, |author| + 1 + |ds|)
  {
    var s := author + "-" + ds + ext;
    var a := |author|;
    var e := a + 1 + |ds|;
    assert s[..a] == author;
    assert s[a + 1..e] == ds;
    assert s[e + 1..] == ext[1..];
  }

  /**
    Round trip of the name the tool builds: `author-str(num).ext` reads back
    as identifier `author` and number `num` under the conditions of
    DigitNameMatches.
  */
  lemma BuiltNameRoundTrip(author: string, num: nat, ext: string)
    requires |author| >= 1 && AllLine(author) && NoSplitInside(author)
    requires |ext| >= 1 && ext[0] == '.' && TailMatches(ext[1..])
    ensures MatchId(author + "-" + Decimal(num) + ext) == Some(author)
    ensures MatchNum(author + "-" + Decimal(num) + ext) == Some(num)
  {
    DigitNameMatches(author, Decimal(num), ext);
    DecimalRoundTrip(num);
  }

  /**
    A name built from a source file without an extension (`author-num`), or
    with a bare trailing dot (`author-num.`), is matched by neither pattern.
  */
  lemma ExtensionlessNameIgnored(author: string, num: nat, ext: string)
    requires NoSplitInside(author)
    requires ext == [] || ext == "."
    ensures MatchId(author + "-" + Decimal(num) + ext).None?
    ensures MatchNum(author + "-" + Decimal(num) + ext).None?
  {
    var ds := Decimal(num);
    var s := author + "-" + ds + ext;
    var a := |author|;
    var e := a + 1 + |ds|;
    MatchSpec(s);
    forall k, j ensures !MatchesAt(s, k, j) {
      NoEarlySplit(author, ds, ext, k, j);
      if a < k < e {
        assert s[k] == ds[k - a - 1];
      }
    }
  }

  // ---------------------------------------------------------------------
  // Boundary cases of the non-greedy split
  // ---------------------------------------------------------------------

  /** "A-1-2.jpg": at the first hyphen the digit run "1" is followed by '-', not '.', so the split moves on. */
  lemma SplitSkipsHyphenNotFollowedByDot(s: string)
    requires s == "A-1-2.jpg"
    ensures MatchId(s) == Some("A-1")
    ensures MatchNum(s) == Some(2)
  {
    var author, ds, ext := s[..3], s[4..5], s[5..];
    assert s == author + "-" + ds + ext && author == "A-1" && ds == "2" && ext == ".jpg";
    assert DecimalValue(ds) == 2 by { assert ds[..0] == []; }
    DigitNameMatches(author, ds, ext);
  }

  /** "X-1.y-2.jpg": the leftmost admissible hyphen wins, even with a later `-digits.` in the name. */
  lemma SplitTakesLeftmostHyphen(s: string)
    requires s == "X-1.y-2.jpg"
    ensures MatchId(s) == Some("X")
    ensures MatchNum(s) == Some(1)
  {
    var author, ds, ext := s[..1], s[2..3], s[3..];
    assert s == author + "-" + ds + ext && author == "X" && ds == "1";
    assert ext[0] == '.' && TailMatches(ext[1..]) by {
      assert ext[1..] == "y-2.jpg";
    }
    assert DecimalValue(ds) == 1 by { assert ds[..0] == []; }
    DigitNameMatches(author, ds, ext);
  }

  /** A name without a hyphen-number part is not matched. */
  lemma PlainNameNotMatched(s: string)
    requires s == "readme.txt"
    ensures MatchId(s).None? && MatchNum(s).None?
  {
    assert forall k :: 0 <= k < |s| ==> s[k] != '-';
    MatchSpec(s);
  }

  /** "Dan-007.jpg" carries the number 7: `int()` drops the leading zeros. */
  lemma LeadingZerosCollapse(s: string)
    requires s == "Dan-007.jpg"
    ensures MatchId(s) == Some("Dan")
    ensures MatchNum(s) == Some(7)
  {
    var author, ds, ext := s[..3], s[4..7], s[7..];
    assert s == author + "-" + ds + ext && author == "Dan" && ds == "007" && ext == ".jpg";
    assert DecimalValue(ds) == 7 by {
      assert ds == "0" + "07" && "07" == "0" + "7";
      LeadingZeroIgnored("07");
      LeadingZeroIgnored("7");
      assert DecimalValue("7") == 7 by { assert "7"[..0] == []; }
    }
    DigitNameMatches(author, ds, ext);
  }
}
