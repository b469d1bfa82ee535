/**
  The shopping list bot's state and the five command handlers that read or
  change it, with the chat plumbing removed. The two globals
  `SHOPPING_LIST` and `LIST_BACKUP` become the two fields of an immutable
  `State`; every handler is a pure transition that returns the next state
  together with the replies the handler would send.

  The handlers of `shopping_list.py` mix aliasing and copying of Python
  lists, but every handler that mutates the list copies it into the backup
  first (add, remove) or rebinds the list to a fresh object (clear), so
  value semantics gives the same observable behaviour.
 */
module ListStore {
  import opened Text

  datatype Option<+T> = None | Some(value: T)

  /** `SHOPPING_LIST` and `LIST_BACKUP`. */
  datatype State = State(list: seq<string>, backup: seq<string>)

  /** Both globals start out as the same empty list. */
  const Initial: State := State([], [])

  /* ---------------------------------------------------------------------
     Startup: restore_from_backup
     --------------------------------------------------------------------- */

  /** Replaces the list by the stored one when the backup file exists
      (`stored` is `Some`), and changes nothing when it does not. The undo
      backup is never touched. */
  function Restore(s: State, stored: Option<seq<string>>): (r: State)
    ensures r.backup == s.backup
    ensures stored.Some? ==> r.list == stored.value
    ensures stored.None? ==> r == s
  {
    match stored
    case Some(items) => State(items, s.backup)
    case None => s
  }

  /** The state the first command sees: the restored list, or the empty one
      on a first run, and an empty undo backup either way. */
  function Startup(stored: Option<seq<string>>): (r: State)
    ensures r.backup == []
    ensures r.list == (if stored.Some? then stored.value else [])
  {
    Restore(Initial, stored)
  }

  /* ---------------------------------------------------------------------
     /list: show_list
     --------------------------------------------------------------------- */

  /** What `show_list` reports: the empty-list message, or the items. */
  datatype View = Empty | Listing(items: seq<string>)

  function Show(s: State): (v: View)
    ensures v.Empty? <==> |s.list| == 0
    ensures v.Listing? ==> v.items == s.list
  {
    if |s.list| == 0 then Empty else Listing(s.list)
  }

  /* ---------------------------------------------------------------------
     /add: add
     --------------------------------------------------------------------- */

  /** One reply per comma segment: the item added, or the "please specify
      an item" message for a segment of length zero. */
  datatype AddReply = Added(item: string) | NothingToAdd

  /** The items after the add loop, and the replies it sent. */
  datatype Appended = Appended(items: seq<string>, replies: seq<AddReply>)

  /** The state after an add, and the replies it sent. */
  datatype AddOutcome = AddOutcome(state: State, replies: seq<AddReply>)

  /** The argument words joined by spaces, stripped and cut at commas. */
  function Segments(args: seq<string>): seq<string>
  {
    Split(Strip(Join(args, " ")), ',')
  }

  /** The text stored for a segment: stripped, then title-cased. */
  function Normalize(segment: string): string
  {
    Title(Strip(segment))
  }

  /** Reference definition of what an add appends: keep the segments of
      non-zero length and normalise each one, in segment order. Note that a
      whitespace-only segment has non-zero length and so contributes "". */
  function Kept(segments: seq<string>): seq<string>
  {
    if |segments| == 0 then []
    else (if |segments[0]| > 0 then [Normalize(segments[0])] else []) + Kept(segments[1..])
  }

  /** The reply to one segment: the stored item for a segment of non-zero
      length, otherwise the "please specify an item" message. */
  function ReplyFor(segment: string): AddReply
  {
    if |segment| > 0 then Added(Normalize(segment)) else NothingToAdd
  }

  /** The handler's loop over the segments, appending to `items` and
      collecting one reply per segment. */
  function AppendSegments(items: seq<string>, segments: seq<string>): (r: Appended)
    ensures r.items == items + Kept(segments)
    ensures |r.replies| == |segments|
    ensures forall k :: 0 <= k < |segments| ==>
      r.replies[k] == ReplyFor(segments[k])
    decreases |segments|
  {
    if |segments| == 0 then Appended(items, [])
    else
      var segment := segments[0];
      var kept := if |segment| > 0 then [Normalize(segment)] else [];
      var reply := ReplyFor(segment);
      var rest := AppendSegments(items + kept, segments[1..]);
      assert Kept(segments) == kept + Kept(segments[1..]);
      AppendAssociative(items, kept, Kept(segments[1..]));
      Appended(rest.items, [reply] + rest.replies)
  }

  /** The add handler once the arguments are cut into segments: the backup
      becomes the list as it was, the list grows by the normalised segments
      of non-zero length, in order, and every segment gets a reply. */
  function AddSegments(s: State, segments: seq<string>): (r: AddOutcome)
    ensures r.state.backup == s.list
    ensures r.state.list == s.list + Kept(segments)
    ensures |r.replies| == |segments|
    ensures forall k :: 0 <= k < |segments| ==>
      r.replies[k] == ReplyFor(segments[k])
  {
    var appended := AppendSegments(s.list, segments);
    AddOutcome(State(appended.items, s.list), appended.replies)
  }

  /** `/add a, b, c`: the argument words are joined by spaces, stripped
      and cut at commas, and each segment is then added as above. */
  function Add(s: State, args: seq<string>): (r: AddOutcome)
    ensures r.state.backup == s.list
    ensures r.state.list == s.list + Kept(Segments(args))
    ensures |r.replies| == |Segments(args)|
    ensures forall k :: 0 <= k < |Segments(args)| ==>
      r.replies[k] == ReplyFor(Segments(args)[k])
  {
    AddSegments(s, Segments(args))
  }

  /** `/add` with no arguments adds nothing and answers once with the
      "please specify" message, yet still overwrites the backup. */
  lemma AddWithoutArguments(s: State)
    ensures Add(s, []).state == State(s.list, s.list)
    ensures Add(s, []).replies == [NothingToAdd]
  {
  }

  /** A segment made only of whitespace normalises to the empty item. */
  lemma BlankNormalizesToEmpty(segment: string)
    requires forall i :: 0 <= i < |segment| ==> IsSpace(segment[i])
    ensures Normalize(segment) == ""
  {
  }

  /** The length test comes before stripping, so a segment made only of
      whitespace is accepted and answered as the empty item. */
  lemma WhitespaceSegmentAddsEmptyItem(s: State, args: seq<string>, k: nat)
    requires k < |Segments(args)|
    requires |Segments(args)[k]| > 0
    requires forall i :: 0 <= i < |Segments(args)[k]| ==> IsSpace(Segments(args)[k][i])
    ensures Add(s, args).replies[k] == Added("")
  {
  }

  /** The items announced in a sequence of add replies, in order. */
  function Announced(replies: seq<AddReply>): seq<string>
  {
    if |replies| == 0 then []
    else (if replies[0].Added? then [replies[0].item] else []) + Announced(replies[1..])
  }

  /** The list grows by exactly the items the replies announce. */
  lemma {:induction false} KeptIsAnnounced(segments: seq<string>, replies: seq<AddReply>)
    requires |replies| == |segments|
    requires forall k :: 0 <= k < |segments| ==>
      replies[k] == ReplyFor(segments[k])
    ensures Kept(segments) == Announced(replies)
  {
    if |segments| > 0 {
      KeptIsAnnounced(segments[1..], replies[1..]);
    }
  }

  /** Consequence for the handler: after an add, the list is the old list
      followed by what the bot said it added. */
  lemma AddAppendsAnnounced(s: State, args: seq<string>)
    ensures Add(s, args).state.list == s.list + Announced(Add(s, args).replies)
  {
    KeptIsAnnounced(Segments(args), Add(s, args).replies);
  }

  /* ---------------------------------------------------------------------
     /remove: remove
     --------------------------------------------------------------------- */

  /** The item removed, the "please specify an item" message for an empty
      query, or silence: when nothing matches the handler sends nothing. */
  datatype RemoveReply = Removed(item: string) | NothingToRemove | NoMatch

  /** The items left after the scan-and-remove step, and its reply. */
  datatype Remaining = Remaining(items: seq<string>, reply: RemoveReply)

  /** The state after a remove, and its reply. */
  datatype RemoveOutcome = RemoveOutcome(state: State, reply: RemoveReply)

  /** The argument words joined by spaces and stripped. */
  function Query(args: seq<string>): string
  {
    Strip(Join(args, " "))
  }

  /** `query.lower() in item.lower()`. */
  predicate Matches(item: string, query: string) {
    Contains(Lower(item), Lower(query))
  }

  /** `i` is the first position whose item matches `query`. */
  predicate IsFirstMatch(items: seq<string>, query: string, i: nat) {
    && i < |items|
    && Matches(items[i], query)
    && forall j :: 0 <= j < i ==> !Matches(items[j], query)
  }

  /** The handler's scan over the list, stopping at the first match. */
  function FirstMatch(items: seq<string>, query: string): (r: Option<nat>)
    ensures r.Some? ==> IsFirstMatch(items, query, r.value)
    ensures r.None? ==> forall j :: 0 <= j < |items| ==> !Matches(items[j], query)
  {
    if |items| == 0 then None
    else if Matches(items[0], query) then Some(0)
    else
      match FirstMatch(items[1..], query)
      case None => None
      case Some(i) => Some(i + 1)
  }

  /** Python's `list.remove(x)`: drops the first element equal to `x`. The
      remove handler only calls it with an element of the list. */
  function RemoveValue(items: seq<string>, x: string): (r: seq<string>)
    requires x in items
    ensures |r| == |items| - 1
  {
    if items[0] == x then items[1..] else [items[0]] + RemoveValue(items[1..], x)
  }

  /** Removing the value at a position where it occurs for the first time
      deletes exactly that position. */
  lemma {:induction false} RemoveValueAtFirstOccurrence(items: seq<string>, i: nat)
    requires i < |items|
    requires forall j :: 0 <= j < i ==> items[j] != items[i]
    ensures RemoveValue(items, items[i]) == items[..i] + items[i + 1..]
  {
    var x := items[i];
    if i > 0 {
      var tail := items[1..];
      assert tail[i - 1] == x;
      assert RemoveValue(items, x) == [items[0]] + RemoveValue(tail, x);
      RemoveValueAtFirstOccurrence(tail, i - 1);
      assert items[..i] == [items[0]] + tail[..i - 1];
      assert items[i + 1..] == tail[i..];
      AppendAssociative([items[0]], tail[..i - 1], tail[i..]);
    }
  }

  /** Deleting one position removes exactly one copy of its element. */
  lemma DeleteAtRemovesOneCopy(items: seq<string>, i: nat)
    requires i < |items|
    ensures multiset(items[..i] + items[i + 1..]) + multiset{items[i]} == multiset(items)
  {
    assert items == items[..i] + [items[i]] + items[i + 1..];
  }

  /** Sequence concatenation is associative. */
  lemma AppendAssociative<T>(a: seq<T>, b: seq<T>, c: seq<T>)
    ensures a + b + c == a + (b + c)
  {
  }

  /** The scan-and-remove step of the handler on a non-empty query: the
      first matching item is deleted and named in the reply; without a
      match the list is unchanged and nothing is sent. */
  function RemoveFirstMatch(items: seq<string>, query: string): (r: Remaining)
    ensures r.reply.NothingToRemove? == false
    ensures (forall j :: 0 <= j < |items| ==> !Matches(items[j], query)) ==> r == Remaining(items, NoMatch)
    ensures forall i: nat :: IsFirstMatch(items, query, i) ==>
      r == Remaining(items[..i] + items[i + 1..], Removed(items[i]))
    ensures r.reply.Removed? ==> multiset(r.items) + multiset{r.reply.item} == multiset(items)
    ensures !r.reply.Removed? ==> r.items == items
  {
    match FirstMatch(items, query)
    case None => Remaining(items, NoMatch)
    case Some(i) =>
      assert forall j :: 0 <= j < i ==> items[j] != items[i];
      RemoveValueAtFirstOccurrence(items, i);
      DeleteAtRemovesOneCopy(items, i);
      Remaining(RemoveValue(items, items[i]), Removed(items[i]))
  }

  /** `/remove q`: the backup becomes the list as it was, whatever happens.
      An empty query and a query no item contains leave the list alone;
      otherwise exactly the first matching item is deleted. */
  function Remove(s: State, args: seq<string>): (r: RemoveOutcome)
    ensures r.state.backup == s.list
    ensures |Query(args)| == 0 ==> r.state.list == s.list && r.reply == NothingToRemove
    ensures |Query(args)| > 0 && (forall j :: 0 <= j < |s.list| ==> !Matches(s.list[j], Query(args))) ==>
      r.state.list == s.list && r.reply == NoMatch
    ensures forall i: nat :: |Query(args)| > 0 && IsFirstMatch(s.list, Query(args), i) ==>
      r.state.list == s.list[..i] + s.list[i + 1..] && r.reply == Removed(s.list[i])
    ensures r.reply.Removed? ==> multiset(r.state.list) + multiset{r.reply.item} == multiset(s.list)
    ensures !r.reply.Removed? ==> r.state.list == s.list
  {
    var query := Query(args);
    if |query| == 0 then RemoveOutcome(State(s.list, s.list), NothingToRemove)
    else
      var remaining := RemoveFirstMatch(s.list, query);
      RemoveOutcome(State(remaining.items, s.list), remaining.reply)
  }

  /** Whenever some item matches a non-empty query, remove deletes exactly
      one item, and the item it deletes matches. */
  lemma RemoveDeletesOneWhenSomeItemMatches(s: State, args: seq<string>, j: nat)
    requires |Query(args)| > 0
    requires j < |s.list| && Matches(s.list[j], Query(args))
    ensures Remove(s, args).reply.Removed?
    ensures Matches(Remove(s, args).reply.item, Query(args))
    ensures |Remove(s, args).state.list| == |s.list| - 1
  {
  }

  /** What was added can be removed by typing the same text again: a
      stored item always matches its own stripped segment, whatever the
      case the user typed it in. */
  lemma NormalizedItemMatchesItsText(segment: string)
    ensures Matches(Normalize(segment), Strip(segment))
  {
    var text := Strip(segment);
    LowerOfTitle(text);
    assert OccursAt(Lower(text), Lower(text), 0);
  }

  /* ---------------------------------------------------------------------
     /clear and /undo
     --------------------------------------------------------------------- */

  /** `/clear`: the backup takes the old list, the list becomes empty. */
  function Clear(s: State): (r: State)
    ensures r.list == []
    ensures r.backup == s.list
  {
    State([], s.list)
  }

  /** The state after an undo, and the list it shows. */
  datatype UndoOutcome = UndoOutcome(state: State, view: View)

  /** `/undo`: the list takes the backup's contents, the backup is kept,
      and the restored list is shown. */
  function Undo(s: State): (r: UndoOutcome)
    ensures r.state.list == s.backup
    ensures r.state.backup == s.backup
    ensures r.view.Empty? <==> |s.backup| == 0
    ensures r.view.Listing? ==> r.view.items == s.backup
  {
    var restored := State(s.backup, s.backup);
    UndoOutcome(restored, Show(restored))
  }

  /* ---------------------------------------------------------------------
     Well-formed items
     --------------------------------------------------------------------- */

  /** An item as the add handler stores it: no outer whitespace and
      already title-cased. */
  predicate IsItem(x: string) {
    IsStripped(x) && Title(x) == x
  }

  /** Every item in the list and in the backup is well formed. */
  predicate WellFormed(s: State) {
    && (forall x :: x in s.list ==> IsItem(x))
    && (forall x :: x in s.backup ==> IsItem(x))
  }

  /** Normalising any segment yields a well-formed item. */
  lemma NormalizeIsItem(segment: string)
    ensures IsItem(Normalize(segment))
  {
    TitleKeepsStripped(Strip(segment));
    TitleIdempotent(Strip(segment));
  }

  /** Everything an add appends is well formed. */
  lemma {:induction false} KeptAreItems(segments: seq<string>)
    ensures forall x :: x in Kept(segments) ==> IsItem(x)
    decreases |segments|
  {
    if |segments| > 0 {
      KeptAreItems(segments[1..]);
      NormalizeIsItem(segments[0]);
    }
  }
}
