/**
  The state of the renaming window, with the Qt widgets and the file
  system calls taken out: the destination directory, its listing (fixed for
  the session), the selected files, the discovered authors, the cache of
  busy numbers per author, and the new paths of the last rename.
*/
module Identificator {
  import opened Text
  import opened Paths
  import opened Scanner
  import opened Renaming

  /** Where pressing "Rename" ends. */
  datatype RenameOutcome =
    | AuthorMissing                             // empty author box: "Please select an author!"
    | Cancelled                                 // the confirmation was declined: "Cancel!"
    | Confirmed(moves: seq<(string, string)>)   // accepted: the moves to perform, in order

  class App {
    const destDir: string
    const listing: seq<string>
    const prevFiles: seq<string>
    var authors: seq<string>
    var busyNumbers: map<string, seq<nat>>
    var newFiles: seq<string>

    /** Every cached entry is what the comprehension gives on the listing. */
    ghost predicate CacheValid()
      reads this
    {
      forall a :: a in busyNumbers ==> busyNumbers[a] == NumbersFor(listing, a)
    }

    /** The cache is consistent and `authors` is what discovery gives on the listing (see Scanner.Authors). */
    ghost predicate Valid()
      reads this
    {
      CacheValid() && authors == Authors(listing)
    }

    /** `__init__` without the widgets: empty state, then `get_authors()`. */
    constructor (destDir: string, listing: seq<string>, prevFiles: seq<string>)
      ensures Valid()
      ensures this.destDir == destDir && this.listing == listing && this.prevFiles == prevFiles
      ensures busyNumbers == map[] && newFiles == []
    {
      this.destDir := destDir;
      this.listing := listing;
      this.prevFiles := prevFiles;
      authors := [];
      busyNumbers := map[];
      newFiles := [];
      new;
      GetAuthors();
    }

    /**
      `get_authors`: appends each matching name's stripped identifier not
      yet present, in listing order, then sorts the list.
    */
    method GetAuthors()
      modifies this`authors
      ensures authors == SortStrings(Collect(old(authors), listing))
    {
      var found := authors;
      var i := 0;
      while i < |listing|
        invariant 0 <= i <= |listing|
        invariant found == Collect(old(authors), listing[..i])
      {
        var id := StrippedId(listing[i]);
        CollectPrefixStep(old(authors), listing, i);
        match id {
          case Some(a) =>
            if a !in found {
              found := found + [a];
            }
          case None =>
        }
        i := i + 1;
      }
      assert listing[..i] == listing;
      authors := SortStrings(found);
    }

    /**
      `get_busy_numbers(author)`: computed once per author. A cached author
      leaves the map as it was; otherwise only the entry for `author` is
      added, holding the numbers of the listed names counted for it.
      `authors` lies outside the frame, so `Valid()` is kept as well.
    */
    method GetBusyNumbers(author: string)
      requires CacheValid()
      modifies this`busyNumbers
      ensures CacheValid()
      ensures author in busyNumbers && busyNumbers[author] == NumbersFor(listing, author)
      ensures author in old(busyNumbers) ==> busyNumbers == old(busyNumbers)
      ensures author !in old(busyNumbers) ==>
                busyNumbers == old(busyNumbers)[author := NumbersFor(listing, author)]
    {
      if author !in busyNumbers {
        busyNumbers := busyNumbers[author := NumbersFor(listing, author)];
      }
    }

    /**
      `rename_files` up to the moves: refuses an empty author box; otherwise
      strips the author, fills the cache for it, allocates the lowest free
      numbers, builds one new path per selected file, and returns the moves
      if the confirmation is accepted. `authors` lies outside the frame, so
      `Valid()` is kept as well.
    */
    method RenameFiles(text: string, confirmed: bool) returns (outcome: RenameOutcome)
      requires CacheValid()
      modifies this`busyNumbers, this`newFiles
      ensures CacheValid()
      ensures text == [] ==>
                outcome == AuthorMissing && busyNumbers == old(busyNumbers) && newFiles == old(newFiles)
      ensures text != [] ==> Strip(text) in busyNumbers
      ensures text != [] && Strip(text) in old(busyNumbers) ==> busyNumbers == old(busyNumbers)
      ensures text != [] && Strip(text) !in old(busyNumbers) ==>
                busyNumbers == old(busyNumbers)[Strip(text) := NumbersFor(listing, Strip(text))]
      ensures text != [] ==>
                exists free :: IsLowestFree(ToSet(NumbersFor(listing, Strip(text))), |prevFiles|, free)
                               && newFiles == NewNames(destDir, Strip(text), prevFiles, free)
      ensures text != [] ==> |newFiles| == |prevFiles|
      ensures text != [] && !confirmed ==> outcome == Cancelled
      ensures text != [] && confirmed ==>
                outcome.Confirmed? && |outcome.moves| == |prevFiles|
                && forall i :: 0 <= i < |prevFiles| ==> outcome.moves[i] == (prevFiles[i], newFiles[i])
    {
      if text == [] {
        return AuthorMissing;
      }
      var author := Strip(text);
      GetBusyNumbers(author);
      var used := ToSet(busyNumbers[author]);
      var free := AllocateFree(used, |prevFiles|);
      var names := NewNames(destDir, author, prevFiles, free);
      newFiles := names;
      if confirmed {
        outcome := Confirmed(seq(|prevFiles|, i requires 0 <= i < |prevFiles| => (prevFiles[i], names[i])));
      } else {
        outcome := Cancelled;
      }
    }
  }
}
