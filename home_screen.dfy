/**
 * screens/HomeScreen.js: the list the home screen shows is the fetched notes,
 * filtered by the selected category and then sorted, on a copy, by the
 * selected option. `Array.prototype.sort` is stable, so the sorted list is
 * the one a stable insertion sort with the same comparator produces.
 *
 * `localeCompare` is modelled as code-point order on the titles, and the
 * date comparator as the string order of the dates; on the dates the store
 * holds (YYYY-MM-DD, see `YmdDate.DateOrderIsChronological`) that is the
 * chronological order the `Date` subtraction computes.
 */
module HomeScreen {
  import opened Db
  import opened Text
  import YmdDate

  /** `notes.filter((note) => note.category === category)`. */
  function Filter(notes: seq<Note>, category: string): (r: seq<Note>)
    ensures |r| <= |notes|
    ensures forall n :: n in r <==> n in notes && n.category == category
  {
    if notes == [] then []
    else (if notes[0].category == category then [notes[0]] else []) + Filter(notes[1..], category)
  }

  /** `filteredNotes`: every note for "All", the notes of the selected category otherwise. */
  function FilteredNotes(notes: seq<Note>, selectedCategory: string): (r: seq<Note>)
    ensures |r| <= |notes|
  {
    if selectedCategory == "All" then notes else Filter(notes, selectedCategory)
  }

  /** Filtering keeps the original order: the filter of a concatenation is the concatenation of the filters. */
  lemma {:induction false} FilterConcat(a: seq<Note>, b: seq<Note>, category: string)
    ensures Filter(a + b, category) == Filter(a, category) + Filter(b, category)
  {
    if a == [] {
      assert a + b == b;
    } else {
      assert (a + b)[1..] == a[1..] + b;
      FilterConcat(a[1..], b, category);
    }
  }

  /** Each note is kept as many times as it occurs when it has the category, and dropped otherwise. */
  lemma {:induction false} FilterCount(notes: seq<Note>, category: string, n: Note)
    ensures multiset(Filter(notes, category))[n] == if n.category == category then multiset(notes)[n] else 0
  {
    if notes != [] {
      FilterCount(notes[1..], category, n);
      assert notes == [notes[0]] + notes[1..];
    }
  }

  /** "All" shows the fetched list itself; any other selection shows exactly the notes of that category, in order. */
  lemma FilteredNotesSelect(notes: seq<Note>, selectedCategory: string)
    ensures selectedCategory == "All" ==> FilteredNotes(notes, selectedCategory) == notes
    ensures selectedCategory != "All" ==>
              forall n :: n in FilteredNotes(notes, selectedCategory) <==> n in notes && n.category == selectedCategory
    ensures selectedCategory != "All" && (forall k :: 0 <= k < |notes| ==> notes[k].category == selectedCategory) ==>
              FilteredNotes(notes, selectedCategory) == notes
  {
    if selectedCategory != "All" && (forall k :: 0 <= k < |notes| ==> notes[k].category == selectedCategory) {
      FilterKeepsMatching(notes, selectedCategory);
    }
  }

  /** A list whose notes all have the category is its own filter. */
  lemma {:induction false} FilterKeepsMatching(notes: seq<Note>, category: string)
    requires forall k :: 0 <= k < |notes| ==> notes[k].category == category
    ensures Filter(notes, category) == notes
  {
    if notes != [] {
      FilterKeepsMatching(notes[1..], category);
      assert notes == [notes[0]] + notes[1..];
    }
  }

  /** The comparator: titles in order for "Title", newest date first for "Date", all notes equal otherwise. */
  function Compare(sortOption: string, a: Note, b: Note): (c: int)
    ensures -1 <= c <= 1
  {
    if sortOption == "Title" then LexCompare(a.title, b.title)
    else if sortOption == "Date" then LexCompare(b.date, a.date)
    else 0
  }

  /** The comparator is antisymmetric: if `a` goes after `b`, then `b` goes before `a`. */
  lemma CompareFlip(sortOption: string, a: Note, b: Note)
    ensures Compare(sortOption, b, a) == -Compare(sortOption, a, b)
  {
    LexCompareAntisymmetric(a.title, b.title);
    LexCompareAntisymmetric(b.date, a.date);
  }

  /** Every neighbouring pair is in the comparator's order. */
  predicate SortedBy(sortOption: string, s: seq<Note>)
  {
    forall k :: 0 <= k < |s| - 1 ==> Compare(sortOption, s[k], s[k + 1]) <= 0
  }

  /** Places `x` before the first note it does not go after. */
  function Insert(sortOption: string, x: Note, sorted: seq<Note>): (r: seq<Note>)
    ensures multiset(r) == multiset(sorted) + multiset{x}
    ensures |r| == |sorted| + 1
    ensures r[0] == x || (sorted != [] && r[0] == sorted[0])
  {
    if sorted == [] then [x]
    else if Compare(sortOption, x, sorted[0]) <= 0 then [x] + sorted
    else
      assert sorted == [sorted[0]] + sorted[1..];
      [sorted[0]] + Insert(sortOption, x, sorted[1..])
  }

  /** `sortedNotes`: `[...filteredNotes].sort(comparator)`, a stable sort of a copy. */
  function SortedNotes(sortOption: string, notes: seq<Note>): (r: seq<Note>)
    ensures multiset(r) == multiset(notes)
    ensures |r| == |notes|
  {
    if notes == [] then []
    else
      assert notes == [notes[0]] + notes[1..];
      Insert(sortOption, notes[0], SortedNotes(sortOption, notes[1..]))
  }

  /** Inserting into a sorted list keeps it sorted. */
  lemma {:induction false} InsertSorted(sortOption: string, x: Note, sorted: seq<Note>)
    requires SortedBy(sortOption, sorted)
    ensures SortedBy(sortOption, Insert(sortOption, x, sorted))
  {
    if sorted != [] && Compare(sortOption, x, sorted[0]) > 0 {
      var rest := sorted[1..];
      InsertSorted(sortOption, x, rest);
      CompareFlip(sortOption, x, sorted[0]);
      var r := Insert(sortOption, x, sorted);
      assert r == [sorted[0]] + Insert(sortOption, x, rest);
      assert Compare(sortOption, r[0], r[1]) <= 0 by {
        if rest != [] && Insert(sortOption, x, rest)[0] == rest[0] {
          assert Compare(sortOption, sorted[0], sorted[1]) <= 0;
        }
      }
    }
  }

  /** The sorted list is in the comparator's order, and holds the same notes as many times each. */
  lemma {:induction false} SortedNotesSorted(sortOption: string, notes: seq<Note>)
    ensures SortedBy(sortOption, SortedNotes(sortOption, notes))
    ensures multiset(SortedNotes(sortOption, notes)) == multiset(notes)
  {
    if notes != [] {
      SortedNotesSorted(sortOption, notes[1..]);
      InsertSorted(sortOption, notes[0], SortedNotes(sortOption, notes[1..]));
    }
  }

  /** Sorted by "Title", every title comes no later than every title after it. */
  lemma TitlesAscending(notes: seq<Note>)
    ensures var r := SortedNotes("Title", notes);
            forall i, j :: 0 <= i < j < |r| ==> LexCompare(r[i].title, r[j].title) <= 0
  {
    var r := SortedNotes("Title", notes);
    SortedNotesSorted("Title", notes);
    forall i, j | 0 <= i < j < |r|
      ensures LexCompare(r[i].title, r[j].title) <= 0
    {
      SortedChain(r, i, j);
    }
  }

  /** In a list sorted by title, order between neighbours extends to any two positions. */
  lemma {:induction false} SortedChain(r: seq<Note>, i: nat, j: nat)
    requires SortedBy("Title", r) && i < j < |r|
    ensures LexCompare(r[i].title, r[j].title) <= 0
    decreases j - i
  {
    assert Compare("Title", r[i], r[i + 1]) <= 0;
    if i + 1 < j {
      SortedChain(r, i + 1, j);
      LexCompareTransitive(r[i].title, r[i + 1].title, r[j].title);
    }
  }

  /** Sorting moves notes but makes none: every note shown was fetched. */
  lemma SortedNotesFromInput(sortOption: string, notes: seq<Note>)
    ensures var r := SortedNotes(sortOption, notes);
            forall k :: 0 <= k < |r| ==> r[k] in notes
  {
    var r := SortedNotes(sortOption, notes);
    forall k | 0 <= k < |r| ensures r[k] in notes {
      assert r[k] in multiset(r);
    }
  }

  /**
   * Sorted by "Date", notes with calendar dates are newest first: no note's
   * date is earlier than the date of the note after it.
   */
  lemma DatesNewestFirst(notes: seq<Note>)
    requires forall k :: 0 <= k < |notes| ==> YmdDate.IsValidYmdDate(notes[k].date)
    ensures var r := SortedNotes("Date", notes);
            && (forall k :: 0 <= k < |r| ==> YmdDate.IsValidYmdDate(r[k].date))
            && (forall k :: 0 <= k < |r| - 1 ==> !Earlier(r[k].date, r[k + 1].date))
  {
    var r := SortedNotes("Date", notes);
    SortedNotesSorted("Date", notes);
    SortedNotesFromInput("Date", notes);
    forall k | 0 <= k < |r| - 1
      ensures !Earlier(r[k].date, r[k + 1].date)
    {
      assert Compare("Date", r[k], r[k + 1]) <= 0;
      YmdDate.DateOrderIsChronological(r[k + 1].date, r[k].date);
    }
  }

  /** The calendar date `s` is strictly before `t`. */
  ghost predicate Earlier(s: string, t: string)
    requires YmdDate.IsValidYmdDate(s) && YmdDate.IsValidYmdDate(t)
  {
    var (y1, m1, d1) := (YmdDate.YearOf(s), YmdDate.MonthOf(s), YmdDate.DayOf(s));
    var (y2, m2, d2) := (YmdDate.YearOf(t), YmdDate.MonthOf(t), YmdDate.DayOf(t));
    y1 < y2 || (y1 == y2 && (m1 < m2 || (m1 == m2 && d1 < d2)))
  }

  /** Any other option makes every comparison 0, and the stable sort keeps the filtered order. */
  lemma {:induction false} OtherOptionKeepsOrder(sortOption: string, notes: seq<Note>)
    requires sortOption != "Title" && sortOption != "Date"
    ensures SortedNotes(sortOption, notes) == notes
  {
    if notes != [] {
      OtherOptionKeepsOrder(sortOption, notes[1..]);
      assert notes == [notes[0]] + notes[1..];
    }
  }

  /**
   * The list on screen: the notes of the selected category ("All": every
   * note), each as often as fetched, in the selected order.
   */
  lemma ShownNotes(notes: seq<Note>, selectedCategory: string, sortOption: string, n: Note)
    ensures var shown := SortedNotes(sortOption, FilteredNotes(notes, selectedCategory));
            && SortedBy(sortOption, shown)
            && multiset(shown)[n] ==
                 if selectedCategory == "All" || n.category == selectedCategory then multiset(notes)[n] else 0
  {
    SortedNotesSorted(sortOption, FilteredNotes(notes, selectedCategory));
    if selectedCategory != "All" {
      FilterCount(notes, selectedCategory, n);
    }
  }
}
