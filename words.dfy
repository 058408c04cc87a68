/** The word index entry: for one word, the files it was found in, and for
    each file the lines it appears on and the spellings it appeared with.
    `FileLocation` and `WordEntry` are classes whose list fields are updated
    in place; each is specified through a value snapshot (`Location`,
    `seq<Location>`), and the facts the index relies on (line numbers sorted
    and duplicate-free, one location per file, the occurrence count) are
    proved about the snapshots. */
module Words {
  import opened Common
  import opened Sort

  // ---------------------------------------------------------------------
  // Strings: `toLowerCase` and `compareTo`
  // ---------------------------------------------------------------------

  /** `Character.toLowerCase` on the ASCII letters; every other character
      is left as it is. */
  function LowerChar(c: char): (d: char)
    ensures 'A' <= c <= 'Z' ==> 'a' <= d <= 'z' && d as int == c as int + 32
    ensures !('A' <= c <= 'Z') ==> d == c
  {
    if 'A' <= c <= 'Z' then (c as int + 32) as char else c
  }

  /** `String.toLowerCase`, character by character. */
  function ToLower(s: string): (r: string)
    ensures |r| == |s|
    ensures forall i :: 0 <= i < |s| ==> r[i] == LowerChar(s[i])
  {
    seq(|s|, i requires 0 <= i < |s| => LowerChar(s[i]))
  }

  /** Whether `s` equals its own lower-case form, which is the test
      `variation.equals(variation.toLowerCase())`. */
  predicate IsLower(s: string)
  {
    s == ToLower(s)
  }

  /** Lowering twice is lowering once, and a lowered string holds no
      upper-case ASCII letter. */
  lemma ToLowerIdempotent(s: string)
    ensures IsLower(ToLower(s))
    ensures forall i :: 0 <= i < |s| ==> !('A' <= ToLower(s)[i] <= 'Z')
  {
    var t := ToLower(s);
    assert ToLower(t) == t by {
      forall i | 0 <= i < |t| ensures ToLower(t)[i] == t[i] {
        assert LowerChar(LowerChar(s[i])) == LowerChar(s[i]);
      }
    }
  }

  /** `String.compareTo`: at the first position where the strings differ,
      the difference of the two characters; when one string is a prefix of
      the other, the difference of the lengths. */
  function StringCompare(a: string, b: string): (c: int)
    ensures c == 0 <==> a == b
    decreases |a|
  {
    if a == [] || b == [] then |a| - |b|
    else if a[0] != b[0] then a[0] as int - b[0] as int
    else
      var c := StringCompare(a[1..], b[1..]);
      assert a == [a[0]] + a[1..] && b == [b[0]] + b[1..];
      c
  }

  /** Swapping the arguments negates the result. */
  lemma {:induction false} StringCompareAntisymmetric(a: string, b: string)
    ensures StringCompare(a, b) == -StringCompare(b, a)
    decreases |a|
  {
    if a != [] && b != [] && a[0] == b[0] {
      StringCompareAntisymmetric(a[1..], b[1..]);
    }
  }

  /** "Not greater" is transitive. */
  lemma {:induction false} StringCompareTransitive(a: string, b: string, c: string)
    requires StringCompare(a, b) <= 0 && StringCompare(b, c) <= 0
    ensures StringCompare(a, c) <= 0
    decreases |a|
  {
    if a != [] && b != [] && c != [] && a[0] == b[0] && b[0] == c[0] {
      StringCompareTransitive(a[1..], b[1..], c[1..]);
    }
  }

  /** String order is a comparator in the sense of `java.util.Comparator`,
      so word entries can be ordered by it in a search tree or a sort. */
  lemma StringCompareIsComparator()
    ensures IsComparator(StringCompare)
  {
    forall x, y ensures StringCompare(x, y) < 0 <==> StringCompare(y, x) > 0 {
      StringCompareAntisymmetric(x, y);
    }
    forall x, y, z | StringCompare(x, y) <= 0 && StringCompare(y, z) <= 0
      ensures StringCompare(x, z) <= 0
    {
      StringCompareTransitive(x, y, z);
    }
  }

  // ---------------------------------------------------------------------
  // Line numbers: `List.sort` on integers
  // ---------------------------------------------------------------------

  /** `x` placed before the first element above it. */
  function InsertInOrder(s: seq<int>, x: int): (r: seq<int>)
    ensures multiset(r) == multiset(s) + multiset{x}
  {
    if s == [] then [x]
    else if x <= s[0] then [x] + s
    else
      assert s == [s[0]] + s[1..];
      [s[0]] + InsertInOrder(s[1..], x)
  }

  /** Inserting into a sorted sequence keeps it sorted. */
  lemma {:induction false} InsertInOrderSorted(s: seq<int>, x: int)
    requires Sorted(s, IntCompare)
    ensures Sorted(InsertInOrder(s, x), IntCompare)
  {
    if s == [] {
    } else if x <= s[0] {
      AdjacentSorted([x] + s, IntCompare);
    } else {
      var t := InsertInOrder(s[1..], x);
      assert s == [s[0]] + s[1..];
      SortedSuffix(s, 1, IntCompare);
      InsertInOrderSorted(s[1..], x);
      forall k | 0 <= k < |t| ensures IntCompare(s[0], t[k]) <= 0 {
        assert t[k] in multiset(t);
        if t[k] != x {
          assert t[k] in multiset(s[1..]);
          var m :| 0 <= m < |s[1..]| && s[1..][m] == t[k];
          assert IntCompare(s[0], s[m + 1]) <= 0;
        }
      }
      ConsSorted(s[0], t, IntCompare);
    }
  }

  /** What `lineNumbers.sort(null)` leaves: the numbers in ascending order. */
  function SortInts(s: seq<int>): (r: seq<int>)
    ensures Sorted(r, IntCompare)
    ensures multiset(r) == multiset(s)
  {
    if s == [] then [] else
      var init := SortInts(s[..|s| - 1]);
      assert s == s[..|s| - 1] + [s[|s| - 1]];
      InsertInOrderSorted(init, s[|s| - 1]);
      InsertInOrder(init, s[|s| - 1])
  }

  /** There is only one ascending arrangement of a collection of numbers,
      so any correct `sort` produces exactly `SortInts`. */
  lemma {:induction false} SortedUnique(a: seq<int>, b: seq<int>)
    requires Sorted(a, IntCompare) && Sorted(b, IntCompare)
    requires multiset(a) == multiset(b)
    ensures a == b
    decreases |a|
  {
    if a != [] {
      assert b != [] by {
        assert a[0] in multiset(a);
      }
      assert a[0] == b[0] by {
        assert b[0] in multiset(a);
        assert a[0] in multiset(b);
        var i :| 0 <= i < |a| && a[i] == b[0];
        var j :| 0 <= j < |b| && b[j] == a[0];
        if i > 0 {
          assert IntCompare(a[0], a[i]) <= 0;
        }
        if j > 0 {
          assert IntCompare(b[0], b[j]) <= 0;
        }
      }
      assert a == [a[0]] + a[1..] && b == [b[0]] + b[1..];
      assert multiset(a) == multiset{a[0]} + multiset(a[1..]);
      assert multiset(b) == multiset{b[0]} + multiset(b[1..]);
      assert multiset(a[1..]) == multiset(a) - multiset{a[0]};
      assert multiset(b[1..]) == multiset(b) - multiset{b[0]};
      SortedSuffix(a, 1, IntCompare);
      SortedSuffix(b, 1, IntCompare);
      SortedUnique(a[1..], b[1..]);
    }
  }

  /** A sorted sequence in which no number occurs twice is strictly
      ascending. */
  lemma SortedDistinctIncreasing(s: seq<int>)
    requires Sorted(s, IntCompare)
    requires forall x :: multiset(s)[x] <= 1
    ensures Increasing(s)
  {
    forall i, j | 0 <= i < j < |s| ensures s[i] < s[j] {
      assert IntCompare(s[i], s[j]) <= 0;
      assert s[i] != s[j] by {
        var x := s[i];
        assert s == s[..j] + [s[j]] + s[j + 1..];
        assert multiset(s)[x] == multiset(s[..j])[x] + multiset([s[j]])[x] + multiset(s[j + 1..])[x];
        assert multiset(s[..j])[x] >= 1 by {
          assert s[..j][i] == x;
        }
      }
    }
  }

  /** A strictly ascending sequence holds no number twice. */
  lemma IncreasingDistinct(s: seq<int>)
    requires Increasing(s)
    ensures forall x :: multiset(s)[x] <= 1
    decreases |s|
  {
    if s != [] {
      var t := s[1..];
      assert s == [s[0]] + t;
      assert Increasing(t) by {
        forall i, j | 0 <= i < j < |t| ensures t[i] < t[j] {
          assert s[i + 1] < s[j + 1];
        }
      }
      IncreasingDistinct(t);
      forall k | 0 <= k < |t| ensures t[k] != s[0] {
        assert s[0] < s[k + 1];
      }
    }
  }

  // ---------------------------------------------------------------------
  // The value view of a location and of an entry
  // ---------------------------------------------------------------------

  /** What a `FileLocation` holds: the file, the lines the word is on, and
      the spelling it had when each line was first recorded. */
  datatype Location = Location(fileName: string, lineNumbers: seq<int>, variations: seq<string>)

  /** The shape `addLineNumber` keeps: lines strictly ascending, one
      spelling per line. */
  ghost predicate WellFormed(loc: Location)
  {
    Increasing(loc.lineNumbers) && |loc.variations| == |loc.lineNumbers|
  }

  /** `addLineNumber` on the value: a line already present changes nothing;
      a new line is sorted in, and its spelling is appended at the end. */
  function LineAdded(loc: Location, lineNumber: int, variation: string): Location
  {
    if lineNumber in loc.lineNumbers then loc
    else Location(loc.fileName, SortInts(loc.lineNumbers + [lineNumber]), loc.variations + [variation])
  }

  /** Adding a line keeps the location well formed, records exactly the old
      lines and the new one, and never renames the file. */
  lemma LineAddedWellFormed(loc: Location, lineNumber: int, variation: string)
    requires WellFormed(loc)
    ensures WellFormed(LineAdded(loc, lineNumber, variation))
    ensures LineAdded(loc, lineNumber, variation).fileName == loc.fileName
    ensures forall n :: n in LineAdded(loc, lineNumber, variation).lineNumbers <==>
                        n in loc.lineNumbers || n == lineNumber
    ensures |LineAdded(loc, lineNumber, variation).lineNumbers| ==
            |loc.lineNumbers| + (if lineNumber in loc.lineNumbers then 0 else 1)
  {
    var r := LineAdded(loc, lineNumber, variation);
    if lineNumber !in loc.lineNumbers {
      var s := loc.lineNumbers + [lineNumber];
      IncreasingDistinct(loc.lineNumbers);
      assert multiset(r.lineNumbers) == multiset(loc.lineNumbers) + multiset{lineNumber};
      assert multiset(loc.lineNumbers)[lineNumber] == 0;
      SortedDistinctIncreasing(r.lineNumbers);
      forall n ensures n in r.lineNumbers <==> n in loc.lineNumbers || n == lineNumber {
        assert n in r.lineNumbers <==> n in multiset(r.lineNumbers);
        assert n in loc.lineNumbers <==> n in multiset(loc.lineNumbers);
      }
      assert |r.lineNumbers| == |multiset(r.lineNumbers)|;
    }
  }

  /** The file names of the locations, in list order. */
  function FileNames(view: seq<Location>): (names: seq<string>)
    ensures |names| == |view|
    ensures forall i :: 0 <= i < |view| ==> names[i] == view[i].fileName
  {
    seq(|view|, i requires 0 <= i < |view| => view[i].fileName)
  }

  /** No two locations share a file name. */
  ghost predicate UniqueFiles(view: seq<Location>)
  {
    forall i, j :: 0 <= i < j < |view| ==> view[i].fileName != view[j].fileName
  }

  /** The index of the first location for `fileName`, or `|view|` when
      there is none: where the search loop of `addLocation` stops. */
  function FindFile(view: seq<Location>, fileName: string): (k: nat)
    ensures k <= |view|
    ensures k < |view| ==> view[k].fileName == fileName
    ensures forall i :: 0 <= i < k ==> view[i].fileName != fileName
    decreases |view|
  {
    if view == [] || view[0].fileName == fileName then 0
    else 1 + FindFile(view[1..], fileName)
  }

  /** `addLocation` on the value: the line goes into the first location
      for the file, or into a new location appended for it. */
  function WithLine(view: seq<Location>, fileName: string, lineNumber: int, variation: string): seq<Location>
  {
    var k := FindFile(view, fileName);
    if k < |view| then view[k := LineAdded(view[k], lineNumber, variation)]
    else view + [LineAdded(Location(fileName, [], []), lineNumber, variation)]
  }

  /** Whether the word has already been recorded on `lineNumber` of
      `fileName`. */
  ghost predicate Recorded(view: seq<Location>, fileName: string, lineNumber: int)
  {
    exists i :: 0 <= i < |view| && view[i].fileName == fileName && lineNumber in view[i].lineNumbers
  }

  /** The total number of recorded lines over all locations. */
  function Total(view: seq<Location>): nat
  {
    if view == [] then 0 else Total(view[..|view| - 1]) + |view[|view| - 1].lineNumbers|
  }

  /** Replacing one location changes the total by the change in its line
      count. */
  lemma {:induction false} TotalUpdate(view: seq<Location>, k: nat, loc: Location)
    requires k < |view|
    ensures Total(view[k := loc]) + |view[k].lineNumbers| == Total(view) + |loc.lineNumbers|
    decreases |view|
  {
    var n := |view| - 1;
    assert view[k := loc][..n] == if k < n then view[..n][k := loc] else view[..n];
    if k < n {
      TotalUpdate(view[..n], k, loc);
    }
  }

  /** `addLocation` keeps one location per file and every location well
      formed. */
  lemma WithLineValid(view: seq<Location>, fileName: string, lineNumber: int, variation: string)
    requires UniqueFiles(view) && forall i :: 0 <= i < |view| ==> WellFormed(view[i])
    ensures UniqueFiles(WithLine(view, fileName, lineNumber, variation))
    ensures forall i :: 0 <= i < |WithLine(view, fileName, lineNumber, variation)| ==>
              WellFormed(WithLine(view, fileName, lineNumber, variation)[i])
  {
    var k := FindFile(view, fileName);
    if k < |view| {
      LineAddedWellFormed(view[k], lineNumber, variation);
    } else {
      LineAddedWellFormed(Location(fileName, [], []), lineNumber, variation);
    }
  }

  /** The line just added is among the location's lines, whatever shape
      the location had. */
  lemma LineAddedRecords(loc: Location, lineNumber: int, variation: string)
    ensures lineNumber in LineAdded(loc, lineNumber, variation).lineNumbers
    ensures LineAdded(loc, lineNumber, variation).fileName == loc.fileName
  {
    if lineNumber !in loc.lineNumbers {
      assert lineNumber in multiset(loc.lineNumbers + [lineNumber]);
    }
  }

  /** After `addLocation` the file is listed, at the end if it is new, and
      the line is recorded for it. */
  lemma WithLineFiles(view: seq<Location>, fileName: string, lineNumber: int, variation: string)
    requires UniqueFiles(view)
    ensures var r := WithLine(view, fileName, lineNumber, variation);
      && FileNames(r) == FileNames(view) + (if fileName in FileNames(view) then [] else [fileName])
      && Recorded(r, fileName, lineNumber)
  {
    var r := WithLine(view, fileName, lineNumber, variation);
    var k := FindFile(view, fileName);
    if k < |view| {
      LineAddedRecords(view[k], lineNumber, variation);
      assert r[k].fileName == fileName && lineNumber in r[k].lineNumbers;
      assert FileNames(view)[k] == fileName;
      assert FileNames(r) == FileNames(view);
    } else {
      LineAddedRecords(Location(fileName, [], []), lineNumber, variation);
      assert fileName !in FileNames(view);
      assert FileNames(r) == FileNames(view) + [fileName];
      assert r[|view|].fileName == fileName && lineNumber in r[|view|].lineNumbers;
    }
  }

  /** `addLocation` adds one to the total occurrence count exactly when
      that line of that file was not yet recorded. */
  lemma WithLineTotal(view: seq<Location>, fileName: string, lineNumber: int, variation: string)
    requires UniqueFiles(view) && forall i :: 0 <= i < |view| ==> WellFormed(view[i])
    ensures Total(WithLine(view, fileName, lineNumber, variation)) ==
            Total(view) + (if Recorded(view, fileName, lineNumber) then 0 else 1)
  {
    var r := WithLine(view, fileName, lineNumber, variation);
    var k := FindFile(view, fileName);
    if k < |view| {
      LineAddedWellFormed(view[k], lineNumber, variation);
      TotalUpdate(view, k, r[k]);
      assert Recorded(view, fileName, lineNumber) <==> lineNumber in view[k].lineNumbers by {
        if Recorded(view, fileName, lineNumber) {
          var i :| 0 <= i < |view| && view[i].fileName == fileName && lineNumber in view[i].lineNumbers;
          assert i == k;
        }
      }
    } else {
      LineAddedWellFormed(Location(fileName, [], []), lineNumber, variation);
      assert r[..|view|] == view;
      assert !Recorded(view, fileName, lineNumber);
    }
  }

  /** Every spelling recorded, location by location, in list order. */
  function AllVariations(view: seq<Location>): seq<string>
  {
    if view == [] then [] else AllVariations(view[..|view| - 1]) + view[|view| - 1].variations
  }

  /** The spellings of a prefix of the locations come first among all of
      them. */
  lemma {:induction false} AllVariationsPrefix(view: seq<Location>, i: nat)
    requires i <= |view|
    ensures exists rest :: AllVariations(view) == AllVariations(view[..i]) + rest
    decreases |view| - i
  {
    if i == |view| {
      assert view[..i] == view;
      assert AllVariations(view) == AllVariations(view[..i]) + [];
    } else {
      AllVariationsPrefix(view, i + 1);
      var rest :| AllVariations(view) == AllVariations(view[..i + 1]) + rest;
      assert view[..i + 1][..i] == view[..i];
      assert AllVariations(view) == AllVariations(view[..i]) + (view[i].variations + rest);
    }
  }

  /** The first spelling that is not all lower case. */
  function FirstCapitalized(vs: seq<string>): Option<string>
  {
    if vs == [] then None
    else if !IsLower(vs[0]) then Some(vs[0])
    else FirstCapitalized(vs[1..])
  }

  /** `FirstCapitalized` finds nothing exactly when every spelling is lower
      case, and otherwise finds a capitalised spelling with only lower-case
      ones before it. */
  lemma {:induction false} FirstCapitalizedSpec(vs: seq<string>)
    ensures FirstCapitalized(vs).None? <==> forall i :: 0 <= i < |vs| ==> IsLower(vs[i])
    ensures FirstCapitalized(vs).Some? ==>
              exists k :: 0 <= k < |vs| && vs[k] == FirstCapitalized(vs).value
                          && !IsLower(vs[k]) && forall i :: 0 <= i < k ==> IsLower(vs[i])
  {
    if vs != [] && IsLower(vs[0]) {
      var t := vs[1..];
      FirstCapitalizedSpec(t);
      assert forall i :: 1 <= i < |vs| ==> vs[i] == t[i - 1];
      if FirstCapitalized(t).Some? {
        var k :| 0 <= k < |t| && t[k] == FirstCapitalized(t).value
                 && !IsLower(t[k]) && forall i :: 0 <= i < k ==> IsLower(t[i]);
        assert vs[k + 1] == t[k];
        assert forall i :: 0 <= i < k + 1 ==> IsLower(vs[i]) by {
          forall i | 0 <= i < k + 1 ensures IsLower(vs[i]) {
            if i > 0 {
              assert vs[i] == t[i - 1];
            }
          }
        }
      }
    } else if vs != [] {
      assert vs[0] == FirstCapitalized(vs).value;
    }
  }

  /** The first capitalised spelling of a sequence is found in its first
      part when there is one there, and otherwise in the rest. */
  lemma {:induction false} FirstCapitalizedAppend(a: seq<string>, b: seq<string>)
    ensures FirstCapitalized(a + b) ==
            if FirstCapitalized(a).Some? then FirstCapitalized(a) else FirstCapitalized(b)
    decreases |a|
  {
    if a != [] {
      assert (a + b)[1..] == a[1..] + b;
      assert (a + b)[0] == a[0];
      FirstCapitalizedAppend(a[1..], b);
    } else {
      assert a + b == b;
    }
  }

  /** The spelling shown for the word in reports: the first capitalised
      spelling over all locations; failing that the first spelling of the
      first location; failing that the word itself. */
  function MostSignificant(word: string, view: seq<Location>): string
  {
    if view == [] then word
    else match FirstCapitalized(AllVariations(view))
      case Some(v) => v
      case None => if view[0].variations != [] then view[0].variations[0] else word
  }

  /** The shown spelling is the word or one of the recorded spellings, and
      it is capitalised whenever any recorded spelling is. */
  lemma MostSignificantChoice(word: string, view: seq<Location>)
    ensures var r := MostSignificant(word, view);
      && (r == word || r in AllVariations(view))
      && ((exists v :: v in AllVariations(view) && !IsLower(v)) ==> !IsLower(r))
  {
    var all := AllVariations(view);
    FirstCapitalizedSpec(all);
    if view != [] && FirstCapitalized(all).None? && view[0].variations != [] {
      AllVariationsPrefix(view, 1);
      assert view[..1][..0] == [];
      assert AllVariations(view[..1]) == view[0].variations;
      assert view[0].variations[0] in all;
    }
    if view == [] {
      assert all == [];
    }
  }

  // ---------------------------------------------------------------------
  // The classes
  // ---------------------------------------------------------------------

  /** The record of one file. */
  class FileLocation {
    var fileName: string
    var lineNumbers: seq<int>
    var variations: seq<string>

    /** The value this location holds. */
    function View(): Location
      reads this
    {
      Location(fileName, lineNumbers, variations)
    }

    /** A location for `fileName` with no lines yet. */
    constructor (fileName: string)
      ensures View() == Location(fileName, [], []) && WellFormed(View())
    {
      this.fileName := fileName;
      lineNumbers := [];
      variations := [];
    }

    /** Records `lineNumber` with the spelling `variation` when the line is
        new: the list is re-sorted after the append, and the spelling is
        appended without re-sorting. */
    method AddLineNumber(lineNumber: int, variation: string)
      modifies this
      ensures fileName == old(fileName)
      ensures lineNumber in old(lineNumbers) ==>
                lineNumbers == old(lineNumbers) && variations == old(variations)
      ensures lineNumber !in old(lineNumbers) ==>
                && Sorted(lineNumbers, IntCompare)
                && multiset(lineNumbers) == multiset(old(lineNumbers)) + multiset{lineNumber}
                && variations == old(variations) + [variation]
      ensures View() == LineAdded(old(View()), lineNumber, variation)
    {
      if lineNumber !in lineNumbers {
        lineNumbers := SortInts(lineNumbers + [lineNumber]);
        variations := variations + [variation];
      }
    }
  }

  /** The entry for one word, kept in lower case. */
  class WordEntry {
    var word: string
    var locations: seq<FileLocation>

    // The locations as values, in list order.
    ghost var Locations: seq<Location>

    /** `Locations` is what the location objects hold. */
    ghost predicate Mirrors()
      reads this, locations
    {
      && |Locations| == |locations|
      && forall i :: 0 <= i < |locations| ==> locations[i].View() == Locations[i]
    }

    /** The locations mirror `Locations`; there is one location per file,
        and each is well formed. */
    ghost predicate Valid()
      reads this, locations
    {
      && Mirrors()
      && UniqueFiles(Locations)
      && (forall i :: 0 <= i < |Locations| ==> WellFormed(Locations[i]))
    }

    /** An entry for `word`, lowered, with no locations. */
    constructor (word: string)
      ensures Valid() && this.word == ToLower(word) && Locations == []
    {
      this.word := ToLower(word);
      locations := [];
      Locations := [];
    }

    /** Records that the word was found, spelt `originalWord`, on
        `lineNumber` of `fileName`. */
    method AddLocation(fileName: string, lineNumber: int, originalWord: string)
      requires Valid()
      modifies this, locations
      ensures Valid() && word == old(word)
      ensures Locations == WithLine(old(Locations), fileName, lineNumber, originalWord)
    {
      ghost var view := Locations;
      var k := FindLocation(fileName);
      if k == |locations| {
        var created := new FileLocation(fileName);
        locations := locations + [created];
        Locations := Locations + [created.View()];
      }
      ghost var mid := Locations;
      assert mid == if k < |view| then view else view + [Location(fileName, [], [])];
      WithLineValid(view, fileName, lineNumber, originalWord);
      RecordLine(k, lineNumber, originalWord);
      assert Locations == WithLine(view, fileName, lineNumber, originalWord);
    }

    /** The last step of `addLocation`: `existingLocation.addLineNumber`
        on the location at `k`, every other location untouched. */
    method RecordLine(k: nat, lineNumber: int, originalWord: string)
      requires Mirrors() && UniqueFiles(Locations) && k < |locations|
      modifies this, locations[k]
      ensures Mirrors() && locations == old(locations) && word == old(word)
      ensures Locations == old(Locations)[k := LineAdded(old(Locations)[k], lineNumber, originalWord)]
    {
      var existing := locations[k];
      forall i | 0 <= i < |locations| && i != k ensures locations[i] != existing {
        assert Locations[i].fileName != Locations[k].fileName;
      }
      existing.AddLineNumber(lineNumber, originalWord);
      Locations := Locations[k := existing.View()];
    }

    /** The search loop of `addLocation`: the index of the first location
        for `fileName`, or the number of locations when there is none. */
    method FindLocation(fileName: string) returns (k: nat)
      requires Mirrors()
      ensures k == FindFile(Locations, fileName)
    {
      ghost var view := Locations;
      k := 0;
      while k < |locations| && locations[k].fileName != fileName
        invariant k <= |locations|
        invariant forall i :: 0 <= i < k ==> view[i].fileName != fileName
      {
        k := k + 1;
      }
      FindFileIs(view, fileName, k);
    }

    /** The position where the search of `addLocation` stops is the first
        location for the file. */
    static lemma FindFileIs(view: seq<Location>, fileName: string, k: nat)
      requires k <= |view| && (k < |view| ==> view[k].fileName == fileName)
      requires forall i :: 0 <= i < k ==> view[i].fileName != fileName
      ensures k == FindFile(view, fileName)
    {
    }

    /** `compareTo`: string order on the lowered words. */
    function CompareTo(other: WordEntry): (c: int)
      reads this, other
      ensures c == 0 <==> word == other.word
      ensures c == -StringCompare(other.word, word)
    {
      StringCompareAntisymmetric(word, other.word);
      StringCompare(word, other.word)
    }

    /** The number of recorded lines over all files. */
    method GetTotalOccurrences() returns (total: int)
      requires Mirrors()
      ensures total == Total(Locations)
    {
      ghost var view := Locations;
      total := 0;
      for i := 0 to |locations|
        invariant total == Total(view[..i])
      {
        assert view[..i + 1][..i] == view[..i];
        total := total + |locations[i].lineNumbers|;
      }
      assert view[..|locations|] == view;
    }

    /** The spelling to show for the word: the first capitalised spelling,
        location by location; else the first spelling of the first
        location; else the word. */
    method FindMostSignificantCapitalization() returns (r: string)
      requires Mirrors()
      ensures r == MostSignificant(word, Locations)
    {
      ghost var view := Locations;
      if |locations| == 0 {
        return word;
      }
      for i := 0 to |locations|
        invariant FirstCapitalized(AllVariations(view[..i])).None?
      {
        var found := FirstCapitalizedIn(locations[i].variations);
        assert view[..i + 1][..i] == view[..i];
        FirstCapitalizedAppend(AllVariations(view[..i]), view[i].variations);
        if found.Some? {
          PrefixDecides(view, i + 1);
          return found.value;
        }
      }
      assert view[..|locations|] == view;
      if |locations[0].variations| > 0 {
        r := locations[0].variations[0];
      } else {
        r := word;
      }
    }

    /** The inner loop of `findMostSignificantCapitalization`: the first
        spelling of one location that is not all lower case. */
    static method FirstCapitalizedIn(vs: seq<string>) returns (r: Option<string>)
      ensures r == FirstCapitalized(vs)
    {
      for j := 0 to |vs|
        invariant FirstCapitalized(vs[..j]).None?
      {
        FirstCapitalizedAppend(vs[..j], [vs[j]]);
        assert vs[..j + 1] == vs[..j] + [vs[j]];
        if vs[j] != ToLower(vs[j]) {
          assert vs == vs[..j + 1] + vs[j + 1..];
          FirstCapitalizedAppend(vs[..j + 1], vs[j + 1..]);
          return Some(vs[j]);
        }
      }
      assert vs[..|vs|] == vs;
      r := None;
    }

    /** Once a prefix of the locations holds a capitalised spelling, the
        locations after it do not change which one comes first. */
    static lemma PrefixDecides(view: seq<Location>, i: nat)
      requires i <= |view|
      requires FirstCapitalized(AllVariations(view[..i])).Some?
      ensures FirstCapitalized(AllVariations(view)) == FirstCapitalized(AllVariations(view[..i]))
    {
      AllVariationsPrefix(view, i);
      var rest :| AllVariations(view) == AllVariations(view[..i]) + rest;
      FirstCapitalizedAppend(AllVariations(view[..i]), rest);
    }
  }
}
