/**
 * The searchable notes list: a query typed into the search box narrows the
 * list to the notes whose title or content contains it, ignoring case and
 * surrounding whitespace, and a badge shows "shown / total" while the list
 * is narrowed.
 */
module NotesListView {
  import opened Wrappers
  import opened NoteModel
  import opened Text
  import opened Sequences

  /** A missing text field reads as the empty string (`x || ''`). */
  function OrEmpty(s: Option<string>): (r: string)
    ensures s.None? ==> r == ""
    ensures s.Some? ==> r == s.value
  {
    s.GetOr("")
  }

  /**
   * `q` is the lower-cased piece of `raw` that starts at `k`, and
   * everything of `raw` outside that piece is whitespace.
   */
  ghost predicate NormalizedAt(raw: string, q: string, k: int) {
    0 <= k && k + |q| <= |raw|
    && (forall i :: 0 <= i < |q| ==> q[i] == LowerChar(raw[k + i]))
    && (forall i :: 0 <= i < k ==> IsSpace(raw[i]))
    && (forall i :: k + |q| <= i < |raw| ==> IsSpace(raw[i]))
  }

  /**
   * The query as the filter uses it: lower-cased, then trimmed. It is the
   * lower-cased typed query with its surrounding whitespace removed: it
   * holds no upper-case letter, is empty exactly when the typed query is all
   * whitespace, and has no whitespace at either end.
   */
  function NormalizeQuery(raw: string): (q: string)
    ensures exists k :: NormalizedAt(raw, q, k)
    ensures forall i :: 0 <= i < |q| ==> !IsUpper(q[i])
    ensures q == [] <==> forall i :: 0 <= i < |raw| ==> IsSpace(raw[i])
    ensures q != [] ==> !IsSpace(q[0]) && !IsSpace(q[|q| - 1])
  {
    LowerKeepsSpace(raw);
    TrimKeepsNoUpper(Lower(raw));
    TrimOfLower(raw);
    Trim(Lower(raw))
  }

  /** Trimming the lower-cased query keeps a lower-cased piece of it with only whitespace around. */
  lemma TrimOfLower(raw: string)
    ensures exists k :: NormalizedAt(raw, Trim(Lower(raw)), k)
  {
    var l := Lower(raw);
    var q := Trim(l);
    var k :| TrimmedAt(l, q, k);
    LowerPiece(raw, l, q, k);
  }

  /** A piece trimmed out of the lower-cased `raw` is a lower-cased piece of `raw` with whitespace around it. */
  lemma LowerPiece(raw: string, l: string, q: string, k: int)
    requires |l| == |raw| && forall i :: 0 <= i < |raw| ==> l[i] == LowerChar(raw[i])
    requires TrimmedAt(l, q, k)
    ensures NormalizedAt(raw, q, k)
  {
    forall i | 0 <= i < |q| ensures q[i] == LowerChar(raw[k + i]) {
      assert q[i] == l[k + i];
    }
    forall i | 0 <= i < k ensures IsSpace(raw[i]) {
      assert IsSpace(l[i]);
    }
    forall i | k + |q| <= i < |raw| ensures IsSpace(raw[i]) {
      assert IsSpace(l[i]);
    }
  }


  /**
   * The note's lower-cased title or lower-cased content contains `q` at
   * some position; every note matches the empty query.
   */
  function Matches(n: Note, q: string): (b: bool)
    ensures b <==> Occurs(Lower(OrEmpty(n.title)), q) || Occurs(Lower(OrEmpty(n.content)), q)
    ensures q == "" ==> b
  {
    var title := Lower(OrEmpty(n.title));
    var content := Lower(OrEmpty(n.content));
    ContainsEmpty(title);
    var inTitle := Contains(title, q);
    var inContent := Contains(content, q);
    inTitle || inContent
  }

  /**
   * The notes that match `q`, in their original order, each as often as
   * the list holds it.
   */
  function FilterMatches(list: seq<Note>, q: string): (r: seq<Note>)
    ensures Subsequence(r, list)
    ensures forall x :: x in r ==> x in list && Matches(x, q)
    ensures forall x :: x in list && Matches(x, q) ==> x in r
    ensures forall x :: multiset(r)[x] == if Matches(x, q) then multiset(list)[x] else 0
  {
    if list == [] then []
    else
      var rest := FilterMatches(list[1..], q);
      assert list == [list[0]] + list[1..];
      if Matches(list[0], q) then [list[0]] + rest else rest
  }

  /** Every note matches, so filtering returns the list itself. */
  lemma {:induction false} FilterAllMatch(list: seq<Note>, q: string)
    requires forall x :: x in list ==> Matches(x, q)
    ensures FilterMatches(list, q) == list
  {
    if list != [] {
      var head, tail := list[0], list[1..];
      assert list == [head] + tail;
      assert head in list;
      assert Matches(head, q);
      assert forall x :: x in tail ==> x in list;
      FilterAllMatch(tail, q);
    }
  }



  /**
   * The filtered view: a missing list reads as empty, and an empty
   * normalized query returns the list as it is. That shortcut agrees with
   * filtering by the normalized query.
   */
  function FilterNotes(notes: Option<seq<Note>>, raw: string): (r: seq<Note>)
    ensures NormalizeQuery(raw) == "" ==> r == notes.GetOr([])
    ensures r == FilterMatches(notes.GetOr([]), NormalizeQuery(raw))
  {
    var list := notes.GetOr([]);
    var q := NormalizeQuery(raw);
    if q == "" then
      assert forall x :: x in list ==> Matches(x, q);
      FilterAllMatch(list, q);
      list
    else
      FilterMatches(list, q)
  }

  /** The filter keeps the whole list exactly when every note matches. */
  lemma {:induction false} FilterKeepsAll(list: seq<Note>, q: string)
    ensures |FilterMatches(list, q)| == |list| <==> forall x :: x in list ==> Matches(x, q)
  {
    if list != [] {
      var rest := FilterMatches(list[1..], q);
      FilterKeepsAll(list[1..], q);
      SubsequenceLength(rest, list[1..]);
      assert forall x :: x in list <==> x == list[0] || x in list[1..] by {
        assert list == [list[0]] + list[1..];
      }
      if Matches(list[0], q) {
        assert FilterMatches(list, q) == [list[0]] + rest;
      } else {
        assert FilterMatches(list, q) == rest;
      }
    }
  }

  /**
   * The filtered view leaves notes out and keeps the rest in their order,
   * introduces no note more often than it occurs, and is never longer than
   * the list.
   */
  lemma FilterNotesSubsequence(notes: Option<seq<Note>>, raw: string)
    ensures Subsequence(FilterNotes(notes, raw), notes.GetOr([]))
    ensures multiset(FilterNotes(notes, raw)) <= multiset(notes.GetOr([]))
    ensures |FilterNotes(notes, raw)| <= |notes.GetOr([])|
  {
    var r := FilterNotes(notes, raw);
    SubsequenceMultiset(r, notes.GetOr([]));
    SubsequenceLength(r, notes.GetOr([]));
  }

  /**
   * Soundness and completeness: a note is shown exactly when it is in the
   * list and matches the query, and then as often as the list holds it.
   */
  lemma FilterNotesExact(notes: Option<seq<Note>>, raw: string, n: Note)
    ensures n in FilterNotes(notes, raw) <==> n in notes.GetOr([]) && Matches(n, NormalizeQuery(raw))
    ensures multiset(FilterNotes(notes, raw))[n] ==
      if Matches(n, NormalizeQuery(raw)) then multiset(notes.GetOr([]))[n] else 0
  {
  }

  /** The shown count differs from the list's length exactly when some note does not match the query. */
  lemma BadgeWhenNarrowed(notes: Option<seq<Note>>, raw: string)
    ensures |FilterNotes(notes, raw)| != |notes.GetOr([])| <==>
      exists x :: x in notes.GetOr([]) && !Matches(x, NormalizeQuery(raw))
  {
    FilterKeepsAll(notes.GetOr([]), NormalizeQuery(raw));
  }

  // ---------------------------------------------------------------------
  // The search box's input event, as far as the handler inspects it.

  datatype EventTarget = EventTarget(value: Option<string>)
  datatype InputEvent = InputEvent(target: Option<EventTarget>)

  /** The typed text: the target's value when the event, its target and a non-empty value are all present, else "". */
  function EventValue(ev: Option<InputEvent>): (v: string)
    ensures v != "" <==>
      ev.Some? && ev.value.target.Some? && ev.value.target.value.value.Some? && ev.value.target.value.value.value != ""
    ensures v != "" ==> v == ev.value.target.value.value.value
  {
    if ev.Some? && ev.value.target.Some? && ev.value.target.value.value.Some? && ev.value.target.value.value.value != ""
    then ev.value.target.value.value.value
    else ""
  }

  class NotesListComponent {
    /** The notes input; `None` stands for a null binding. */
    var notes: Option<seq<Note>>
    var query: string

    constructor ()
      ensures notes == Some([]) && query == ""
    {
      notes := Some([]);
      query := "";
    }

    function Filtered(): (r: seq<Note>)
      reads this
      ensures Subsequence(r, notes.GetOr([]))
      ensures forall x :: x in r <==> x in notes.GetOr([]) && Matches(x, NormalizeQuery(query))
      ensures forall x :: multiset(r)[x] ==
                 (if Matches(x, NormalizeQuery(query)) then multiset(notes.GetOr([]))[x] else 0)
    {
      FilterNotesSubsequence(notes, query);
      FilterNotes(notes, query)
    }

    function TotalCount(): (n: nat)
      reads this
      ensures n == |notes.GetOr([])|
    {
      if notes.Some? then |notes.value| else 0
    }

    /** The "shown / total" badge is visible exactly when the query leaves some note out. */
    predicate ShowBadge()
      reads this
      ensures ShowBadge() <==> exists x :: x in notes.GetOr([]) && !Matches(x, NormalizeQuery(query))
    {
      BadgeWhenNarrowed(notes, query);
      |Filtered()| != TotalCount()
    }

    /** The input handler stores the typed text as the new query. */
    method OnInput(ev: Option<InputEvent>)
      modifies this`query
      ensures query == EventValue(ev)
    {
      query := EventValue(ev);
    }
  }
}
