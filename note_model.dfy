/**
 * The note record exchanged with the server, the partial record an edit
 * sends, and the provisional identifier a note carries until its creation
 * is confirmed.
 */
module NoteModel {
  import opened Wrappers

  /**
   * A note. `title` and `content` may be missing in records that come from
   * the server, which the search filter treats as the empty string;
   * timestamps are ISO-8601 strings kept opaque.
   */
  datatype Note = Note(
    id: string,
    title: Option<string>,
    content: Option<string>,
    createdAt: string,
    updatedAt: string,
    archived: bool)

  /** A partial note: every field that is present overrides the note's own. */
  datatype Patch = Patch(
    id: Option<string>,
    title: Option<string>,
    content: Option<string>,
    createdAt: Option<string>,
    updatedAt: Option<string>,
    archived: Option<bool>)

  /** The patch an editor save produces: only the title and the content. */
  function TitleContentPatch(title: string, content: string): (p: Patch)
    ensures p.title == Some(title) && p.content == Some(content)
    ensures p.id.None? && p.createdAt.None? && p.updatedAt.None? && p.archived.None?
  {
    Patch(None, Some(title), Some(content), None, None, None)
  }

  /**
   * The optimistic version of an edited note: the previous note spread,
   * then the patch spread over it, then `updatedAt` set to the current time.
   */
  function Merge(prev: Note, patch: Patch, now: string): (m: Note)
    ensures m.updatedAt == now
    ensures m.id == (if patch.id.Some? then patch.id.value else prev.id)
    ensures m.title == (if patch.title.Some? then patch.title else prev.title)
    ensures m.content == (if patch.content.Some? then patch.content else prev.content)
    ensures m.createdAt == (if patch.createdAt.Some? then patch.createdAt.value else prev.createdAt)
    ensures m.archived == (if patch.archived.Some? then patch.archived.value else prev.archived)
  {
    Note(
      patch.id.GetOr(prev.id),
      if patch.title.Some? then patch.title else prev.title,
      if patch.content.Some? then patch.content else prev.content,
      patch.createdAt.GetOr(prev.createdAt),
      now,
      patch.archived.GetOr(prev.archived))
  }

  /** A patch that leaves a note's identifier alone. */
  predicate KeepsId(patch: Patch, id: string) {
    patch.id.None? || patch.id == Some(id)
  }

  /** The note a create shows before the server answers. */
  function Optimistic(tempId: string, title: string, content: string, now: string): (n: Note)
    ensures n.id == tempId && n.title == Some(title) && n.content == Some(content)
    ensures n.createdAt == now && n.updatedAt == now && !n.archived
  {
    Note(tempId, Some(title), Some(content), now, now, false)
  }

  // ---------------------------------------------------------------------
  // Provisional identifiers: "tmp-" followed by the millisecond clock.

  function Digit(d: nat): (c: char)
    requires d < 10
    ensures '0' <= c <= '9'
    ensures c as int - '0' as int == d
  {
    ('0' as int + d) as char
  }

  /** The decimal rendering of a natural number, as a template string shows it. */
  function Decimal(n: nat): (s: string)
    ensures |s| >= 1
    ensures forall i :: 0 <= i < |s| ==> '0' <= s[i] <= '9'
    ensures n >= 10 ==> |s| >= 2
  {
    if n < 10 then [Digit(n)] else Decimal(n / 10) + [Digit(n % 10)]
  }

  lemma {:induction false} DecimalInjective(a: nat, b: nat)
    requires Decimal(a) == Decimal(b)
    ensures a == b
  {
    var s := Decimal(a);
    // the last digit fixes the remainder
    assert s[|s| - 1] == Digit(a % 10) by {
      if a >= 10 {
        assert s == Decimal(a / 10) + [Digit(a % 10)];
      }
    }
    assert s[|s| - 1] == Digit(b % 10) by {
      if b >= 10 {
        assert s == Decimal(b / 10) + [Digit(b % 10)];
      }
    }
    if a >= 10 && b >= 10 {
      assert Decimal(a / 10) == s[..|s| - 1] == Decimal(b / 10);
      DecimalInjective(a / 10, b / 10);
    }
  }

  const TempPrefix: string := "tmp-"

  /** The provisional id built from a clock reading in milliseconds. */
  function TempId(millis: nat): (id: string)
    ensures |id| > |TempPrefix| && id[..|TempPrefix|] == TempPrefix
  {
    TempPrefix + Decimal(millis)
  }

  /**
   * Two provisional ids coincide exactly when their clock readings do: the
   * id is fresh only if no other create started in the same millisecond.
   */
  lemma TempIdCollision(a: nat, b: nat)
    ensures TempId(a) == TempId(b) <==> a == b
  {
    if TempId(a) == TempId(b) {
      assert Decimal(a) == TempId(a)[|TempPrefix|..];
      assert Decimal(b) == TempId(b)[|TempPrefix|..];
      DecimalInjective(a, b);
    }
  }
}
