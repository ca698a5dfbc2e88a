/** The comment board: one page holding a newest-first list of comments, a
    draft (author and message) and a search query. Comments are only ever
    added, at the front, by a guarded submit; the visible list is the
    comments filtered by case-insensitive substring search; and the page
    shows exactly one of three list states.

    The identifier and timestamp of a new comment come from the clock and the
    locale; they are parameters here.
 */
module CommentBoard {
  import opened Text

  /* ---------------------------------------------------------------------- */
  /* State                                                                  */
  /* ---------------------------------------------------------------------- */

  datatype Comment = Comment(id: string, author: string, message: string, timestamp: string)

  /** The four pieces of page state: the stored comments (newest first), the
      two draft fields and the search query. */
  datatype Board = Board(comments: seq<Comment>, author: string, message: string, searchQuery: string)

  /** A comment as the submit path builds it: author and message are
      non-empty and carry no whitespace at either end. */
  ghost predicate Stored(c: Comment) {
    c.author != [] && c.message != [] && IsTrimmed(c.author) && IsTrimmed(c.message)
  }

  /** What every reachable board satisfies: each stored comment is
      well-formed, and a search query can only have been typed while the
      search box was on screen, that is, once some comment existed. */
  ghost predicate Valid(b: Board) {
    && (forall k :: 0 <= k < |b.comments| ==> Stored(b.comments[k]))
    && (b.searchQuery != [] ==> b.comments != [])
  }

  /** The page as first rendered: everything empty, so the submit button
      starts disabled. */
  function Initial(): (b: Board)
    ensures Valid(b)
    ensures b.comments == [] && b.searchQuery == []
    ensures b.author == [] && b.message == []
    ensures SubmitDisabled(b)
  {
    Board([], "", "", "")
  }

  /* ---------------------------------------------------------------------- */
  /* Transitions                                                            */
  /* ---------------------------------------------------------------------- */

  /** The submit button's `disabled` condition: the trimmed author or the
      trimmed message is empty. */
  predicate SubmitDisabled(b: Board)
    ensures SubmitDisabled(b) <==> AllSpace(b.author) || AllSpace(b.message)
  {
    Trim(b.author) == [] || Trim(b.message) == []
  }

  /** The submit handler. With a blank author or message it does nothing.
      Otherwise it puts a comment built from the trimmed drafts, `id` and
      `timestamp` in front of the list, keeps the old list behind it
      unchanged, clears both drafts and leaves the search query alone. */
  function AddComment(b: Board, id: string, timestamp: string): (r: Board)
    ensures SubmitDisabled(b) ==> r == b
    ensures !SubmitDisabled(b) ==>
      && |r.comments| == |b.comments| + 1
      && r.comments[1..] == b.comments
      && r.comments[0].id == id
      && r.comments[0].timestamp == timestamp
      && Stored(r.comments[0])
      && (exists i :: Around(b.author, r.comments[0].author, i))
      && (exists i :: Around(b.message, r.comments[0].message, i))
      && r.author == [] && r.message == []
      && r.searchQuery == b.searchQuery
  {
    var a := Trim(b.author);
    var m := Trim(b.message);
    if a != [] && m != [] then
      var c := Comment(id, a, m, timestamp);
      b.(comments := [c] + b.comments, author := "", message := "")
    else
      b
  }

  /** The author input's change handler. */
  function SetAuthor(b: Board, value: string): (r: Board)
    ensures r.author == value
    ensures r.comments == b.comments && r.message == b.message && r.searchQuery == b.searchQuery
  {
    b.(author := value)
  }

  /** The message input's change handler. */
  function SetMessage(b: Board, value: string): (r: Board)
    ensures r.message == value
    ensures r.comments == b.comments && r.author == b.author && r.searchQuery == b.searchQuery
  {
    b.(message := value)
  }

  /** The search input's change handler. */
  function SetSearchQuery(b: Board, value: string): (r: Board)
    ensures r.searchQuery == value
    ensures r.comments == b.comments && r.author == b.author && r.message == b.message
  {
    b.(searchQuery := value)
  }

  /** The submit button is enabled exactly when pressing it changes the
      board. */
  lemma SubmitEnabledIffEffective(b: Board, id: string, timestamp: string)
    ensures !SubmitDisabled(b) <==> AddComment(b, id, timestamp) != b
  {
    if !SubmitDisabled(b) {
      assert |AddComment(b, id, timestamp).comments| != |b.comments|;
    }
  }

  /** A successful submit stores exactly the trimmed drafts. */
  lemma SubmitStoresTrimmedDrafts(b: Board, id: string, timestamp: string)
    ensures !SubmitDisabled(b) ==>
      AddComment(b, id, timestamp).comments[0] == Comment(id, Trim(b.author), Trim(b.message), timestamp)
  {
  }

  /* ---------------------------------------------------------------------- */
  /* User events                                                            */
  /* ---------------------------------------------------------------------- */

  /** What the user can do on the page. */
  datatype Event =
    | EditAuthor(value: string)
    | EditMessage(value: string)
    | EditSearch(value: string)
    | Submit(id: string, timestamp: string)

  /** One user event. The search box is only on the page while some comment
      exists, so a search edit on an empty board cannot happen and is
      ignored. */
  function Step(b: Board, e: Event): (r: Board)
    ensures || r.comments == b.comments
            || (r.comments != [] && r.comments[1..] == b.comments)
    ensures r.searchQuery != b.searchQuery ==> b.comments != [] && e == EditSearch(r.searchQuery)
  {
    match e
    case EditAuthor(v) => SetAuthor(b, v)
    case EditMessage(v) => SetMessage(b, v)
    case EditSearch(v) => if b.comments != [] then SetSearchQuery(b, v) else b
    case Submit(id, ts) => AddComment(b, id, ts)
  }

  /** A session: the events applied in order. */
  function Run(b: Board, es: seq<Event>): (r: Board)
    ensures |b.comments| <= |r.comments| <= |b.comments| + |es|
    decreases |es|
  {
    if es == [] then b else Run(Step(b, es[0]), es[1..])
  }

  /** Every event keeps the board valid. */
  lemma StepPreservesValid(b: Board, e: Event)
    requires Valid(b)
    ensures Valid(Step(b, e))
  {
    if e.Submit? && !SubmitDisabled(b) {
      var r := AddComment(b, e.id, e.timestamp);
      forall k | 0 <= k < |r.comments| ensures Stored(r.comments[k]) {
        if k > 0 {
          assert r.comments[k] == b.comments[k - 1];
        }
      }
    }
  }

  /** Every session starting from a valid board ends in a valid board; in
      particular every stored comment has a non-empty, trimmed author and
      message. */
  lemma {:induction false} RunPreservesValid(b: Board, es: seq<Event>)
    requires Valid(b)
    ensures Valid(Run(b, es))
    decreases |es|
  {
    if es != [] {
      StepPreservesValid(b, es[0]);
      RunPreservesValid(Step(b, es[0]), es[1..]);
    }
  }

  /** Comments are never removed, edited or reordered: the comments of the
      board before a session are exactly the tail of the comments after it. */
  lemma {:induction false} RunKeepsHistory(b: Board, es: seq<Event>)
    ensures |b.comments| <= |Run(b, es).comments|
    ensures Run(b, es).comments[|Run(b, es).comments| - |b.comments|..] == b.comments
    decreases |es|
  {
    if es != [] {
      var b' := Step(b, es[0]);
      RunKeepsHistory(b', es[1..]);
      SuffixOfSuffix(Run(b', es[1..]).comments, b'.comments, b.comments);
    }
  }

  /** A tail of a tail is a tail. */
  lemma SuffixOfSuffix(all: seq<Comment>, mid: seq<Comment>, tail: seq<Comment>)
    requires |mid| <= |all| && all[|all| - |mid|..] == mid
    requires mid == tail || (mid != [] && mid[1..] == tail)
    ensures |tail| <= |all| && all[|all| - |tail|..] == tail
  {
    if mid != tail {
      assert all[|all| - |tail|..] == all[|all| - |mid|..][1..];
    }
  }

  /* ---------------------------------------------------------------------- */
  /* Search                                                                 */
  /* ---------------------------------------------------------------------- */

  /** The filter predicate: the lower-cased author or the lower-cased message
      contains the lower-cased query. */
  predicate Matches(c: Comment, query: string)
    ensures Matches(c, query) <==>
      || (exists i :: OccursAt(ToLower(c.author), ToLower(query), i))
      || (exists i :: OccursAt(ToLower(c.message), ToLower(query), i))
  {
    ContainsMeansOccurs(ToLower(c.author), ToLower(query));
    ContainsMeansOccurs(ToLower(c.message), ToLower(query));
    || Contains(ToLower(c.author), ToLower(query))
    || Contains(ToLower(c.message), ToLower(query))
  }

  /** Whether a comment matches does not depend on the case its author and
      message were typed in: upper-casing both leaves the match unchanged. */
  lemma MatchesIgnoresCommentCase(c: Comment, query: string)
    ensures Matches(c.(author := ToUpper(c.author), message := ToUpper(c.message)), query)
            == Matches(c, query)
  {
    ToLowerOfToUpper(c.author);
    ToLowerOfToUpper(c.message);
  }

  /** The visible list: the comments that match the query. Nothing else is
      in it, nothing that matches is missing, and it is no longer than the
      full list. */
  function Filter(cs: seq<Comment>, query: string): (r: seq<Comment>)
    ensures |r| <= |cs|
    ensures forall k :: 0 <= k < |r| ==> r[k] in cs && Matches(r[k], query)
    ensures forall k :: 0 <= k < |cs| && Matches(cs[k], query) ==> cs[k] in r
    decreases |cs|
  {
    if cs == [] then []
    else if Matches(cs[0], query) then [cs[0]] + Filter(cs[1..], query)
    else Filter(cs[1..], query)
  }

  /** `idx` lists, in strictly increasing order, positions of `b` whose
      elements, read in that order, make up `a`. */
  ghost predicate Selects(a: seq<Comment>, b: seq<Comment>, idx: seq<int>) {
    && |idx| == |a|
    && (forall k :: 0 <= k < |idx| ==> 0 <= idx[k] < |b| && a[k] == b[idx[k]])
    && (forall k, l :: 0 <= k < l < |idx| ==> idx[k] < idx[l])
  }

  function Shift(idx: seq<int>): (r: seq<int>)
    ensures |r| == |idx|
    ensures forall k :: 0 <= k < |idx| ==> r[k] == idx[k] + 1
  {
    seq(|idx|, k requires 0 <= k < |idx| => idx[k] + 1)
  }

  /** The positions of the matching comments, in increasing order. */
  ghost function Positions(cs: seq<Comment>, query: string): seq<int>
    decreases |cs|
  {
    if cs == [] then []
    else (if Matches(cs[0], query) then [0] else []) + Shift(Positions(cs[1..], query))
  }

  /** Selecting from the tail of `b` is selecting from `b`, one position on. */
  lemma SelectsFromTail(a: seq<Comment>, b: seq<Comment>, idx: seq<int>)
    requires b != []
    requires Selects(a, b[1..], idx)
    ensures Selects(a, b, Shift(idx))
    ensures forall k :: 0 <= k < |idx| ==> 0 < Shift(idx)[k]
  {
    var shifted := Shift(idx);
    forall k | 0 <= k < |shifted| ensures 0 <= shifted[k] < |b| && a[k] == b[shifted[k]] {
      assert b[shifted[k]] == b[1..][idx[k]];
    }
  }

  /** Selecting the head of `b` as well, in front of positions past it. */
  lemma SelectsWithHead(a: seq<Comment>, b: seq<Comment>, idx: seq<int>)
    requires b != []
    requires Selects(a, b, idx)
    requires forall k :: 0 <= k < |idx| ==> 0 < idx[k]
    ensures Selects([b[0]] + a, b, [0] + idx)
  {
    var a', idx' := [b[0]] + a, [0] + idx;
    forall k | 0 <= k < |idx'| ensures 0 <= idx'[k] < |b| && a'[k] == b[idx'[k]] {
      if k > 0 { assert a'[k] == a[k - 1] && idx'[k] == idx[k - 1]; }
    }
    forall k, l | 0 <= k < l < |idx'| ensures idx'[k] < idx'[l] {
      if k > 0 { assert idx'[k] == idx[k - 1] && idx'[l] == idx[l - 1]; }
    }
  }

  lemma {:induction false} PositionsSelectFilter(cs: seq<Comment>, query: string)
    ensures Selects(Filter(cs, query), cs, Positions(cs, query))
    decreases |cs|
  {
    if cs != [] {
      var rest := Filter(cs[1..], query);
      var tail := Positions(cs[1..], query);
      PositionsSelectFilter(cs[1..], query);
      SelectsFromTail(rest, cs, tail);
      if Matches(cs[0], query) {
        SelectsWithHead(rest, cs, Shift(tail));
      } else {
        assert Positions(cs, query) == Shift(tail);
      }
    }
  }

  lemma ShiftMembership(idx: seq<int>, j: int)
    ensures j in Shift(idx) <==> j - 1 in idx
  {
    var shifted := Shift(idx);
    if j in shifted {
      var k :| 0 <= k < |shifted| && shifted[k] == j;
      assert idx[k] == j - 1;
    }
    if j - 1 in idx {
      var k :| 0 <= k < |idx| && idx[k] == j - 1;
      assert shifted[k] == j;
    }
  }

  lemma {:induction false} PositionsAreMatches(cs: seq<Comment>, query: string, j: int)
    requires 0 <= j < |cs|
    ensures j in Positions(cs, query) <==> Matches(cs[j], query)
    decreases |cs|
  {
    var rest := Positions(cs[1..], query);
    ShiftMembership(rest, j);
    if j > 0 {
      PositionsAreMatches(cs[1..], query, j - 1);
      assert cs[j] == cs[1..][j - 1];
    } else {
      PositionsSelectFilter(cs[1..], query);
      assert -1 !in rest;
    }
  }

  /** The filter keeps the relative order of the comments and picks exactly
      the positions whose comment matches: the visible list is the ordered
      subsequence of matching comments, nothing more and nothing less. */
  lemma FilterSelectsMatchingPositions(cs: seq<Comment>, query: string)
    ensures exists idx :: && Selects(Filter(cs, query), cs, idx)
                          && (forall j :: 0 <= j < |cs| ==> (j in idx <==> Matches(cs[j], query)))
  {
    var idx := Positions(cs, query);
    PositionsSelectFilter(cs, query);
    forall j | 0 <= j < |cs| ensures j in idx <==> Matches(cs[j], query) {
      PositionsAreMatches(cs, query, j);
    }
  }

  /** A blank search box shows every comment, in order: every string
      contains the empty string. */
  lemma {:induction false} FilterEmptyQuery(cs: seq<Comment>)
    ensures Filter(cs, "") == cs
    decreases |cs|
  {
    if cs != [] {
      ContainsEmpty(ToLower(cs[0].author));
      assert ToLower("") == "";
      FilterEmptyQuery(cs[1..]);
    }
  }

  /** The search is case-insensitive in the query: typing it in any case
      shows the same list as typing it in lower case. */
  lemma {:induction false} FilterIgnoresQueryCase(cs: seq<Comment>, query: string)
    ensures Filter(cs, query) == Filter(cs, ToLower(query))
    decreases |cs|
  {
    ToLowerIdempotent(query);
    if cs != [] {
      FilterIgnoresQueryCase(cs[1..], query);
    }
  }

  /** A new comment goes to the front of the visible list when it matches
      the current query and does not appear there otherwise; the rest of the
      visible list is what it was before. */
  lemma FilterAfterSubmit(b: Board, id: string, timestamp: string)
    ensures var r := AddComment(b, id, timestamp);
            !SubmitDisabled(b) ==>
              Filter(r.comments, r.searchQuery)
              == (if Matches(r.comments[0], b.searchQuery) then [r.comments[0]] else [])
                 + Filter(b.comments, b.searchQuery)
  {
    var r := AddComment(b, id, timestamp);
    if !SubmitDisabled(b) {
      assert r.comments == [r.comments[0]] + b.comments;
    }
  }

  /* ---------------------------------------------------------------------- */
  /* Rendering                                                              */
  /* ---------------------------------------------------------------------- */

  /** The list area shows one of three things. */
  datatype ListArea =
    | Cards(shown: seq<Comment>)  // one card per visible comment, in order
    | NotFound                    // comments exist but none matches
    | NoComments                  // the board is empty

  /** The total-count line under the list. */
  datatype Counter = Hidden | Total(count: nat)

  /** What the page shows besides the always-present form. */
  datatype Screen = Screen(list: ListArea, searchBox: bool, counter: Counter)

  /** The render decisions of the page. The card list is shown exactly when
      the visible list is non-empty, and then shows exactly that list; "not
      found" exactly when there are comments but none is visible; the empty
      placeholder exactly when there are no comments at all. The search box
      and the total count appear exactly when there are comments, and the
      count is the number of all comments, not of visible ones. */
  function Render(b: Board): (s: Screen)
    ensures s.list.Cards? <==> Filter(b.comments, b.searchQuery) != []
    ensures s.list.Cards? ==> s.list.shown == Filter(b.comments, b.searchQuery)
    ensures s.list.NotFound? <==> b.comments != [] && Filter(b.comments, b.searchQuery) == []
    ensures s.list.NoComments? <==> b.comments == []
    ensures s.searchBox <==> b.comments != []
    ensures s.counter.Total? <==> b.comments != []
    ensures s.counter.Total? ==> s.counter.count == |b.comments|
  {
    var visible := Filter(b.comments, b.searchQuery);
    var list :=
      if |visible| > 0 then Cards(visible)
      else if |b.comments| > 0 then NotFound
      else NoComments;
    var counter := if |b.comments| > 0 then Total(|b.comments|) else Hidden;
    Screen(list, |b.comments| > 0, counter)
  }

  /** A board with comments never shows the empty placeholder, whatever the
      query, and its count is that of all comments. */
  lemma NonEmptyBoardShowsTotal(b: Board)
    requires b.comments != []
    ensures !Render(b).list.NoComments?
    ensures Render(b).counter == Total(|b.comments|)
    ensures Render(b).searchBox
  {
  }

  /* ---------------------------------------------------------------------- */
  /* Scenarios                                                              */
  /* ---------------------------------------------------------------------- */

  /** Typing an author and a message that need no trimming on a fresh page
      and submitting stores exactly that one comment, and the count reads 1
      (for instance "Anna" and "Hello"). */
  lemma FirstSubmitScenario(author: string, message: string, id: string, timestamp: string)
    requires author != [] && message != []
    requires IsTrimmed(author) && IsTrimmed(message)
    ensures var b := Run(Initial(), [EditAuthor(author), EditMessage(message), Submit(id, timestamp)]);
            && b.comments == [Comment(id, author, message, timestamp)]
            && Render(b).counter == Total(1)
  {
    var events := [EditAuthor(author), EditMessage(message), Submit(id, timestamp)];
    FirstSubmitStores(author, message, id, timestamp);
    var b := Run(Initial(), events);
    assert |b.comments| == 1;
  }

  lemma FirstSubmitStores(author: string, message: string, id: string, timestamp: string)
    requires author != [] && message != []
    requires IsTrimmed(author) && IsTrimmed(message)
    ensures Run(Initial(), [EditAuthor(author), EditMessage(message), Submit(id, timestamp)]).comments
            == [Comment(id, author, message, timestamp)]
  {
    var pre := Board([], author, message, "");
    assert Run(Initial(), [EditAuthor(author), EditMessage(message), Submit(id, timestamp)])
        == Run(pre, [Submit(id, timestamp)]) by {
      assert Step(Initial(), EditAuthor(author)) == Board([], author, "", "");
      assert Step(Board([], author, "", ""), EditMessage(message)) == pre;
    }
    TrimmedIsFixedPoint(author);
    TrimmedIsFixedPoint(message);
    SubmitStoresTrimmedDrafts(pre, id, timestamp);
    assert Run(pre, [Submit(id, timestamp)]) == AddComment(pre, id, timestamp);
  }

  /** The same, for the author "Anna" and the message "Hello". */
  lemma AnnaHelloScenario(id: string, timestamp: string)
    ensures var b := Run(Initial(), [EditAuthor("Anna"), EditMessage("Hello"), Submit(id, timestamp)]);
            && b.comments == [Comment(id, "Anna", "Hello", timestamp)]
            && Render(b).counter == Total(1)
  {
    FirstSubmitScenario("Anna", "Hello", id, timestamp);
  }

  /** A lower-case query finds a comment whose author is capitalised, and
      only that one. */
  lemma CaseInsensitiveSearchScenario(anna: Comment, boris: Comment)
    requires anna.author == "Anna" && anna.message == "Hello"
    requires boris.author == "Boris" && boris.message == "Hi"
    ensures Filter([anna, boris], "anna") == [anna]
  {
    AnnaMatchesAnna(anna);
    BorisLacksAnna(boris);
    assert [anna, boris][1..] == [boris];
    assert Filter([boris], "anna") == [];
  }

  /** A query nothing matches shows "not found" on a non-empty board, and
      the count still reads the number of all comments. */
  lemma NoMatchScenario(anna: Comment, boris: Comment)
    requires anna.author == "Anna" && anna.message == "Hello"
    requires boris.author == "Boris" && boris.message == "Hi"
    ensures var b := Board([anna, boris], "", "", "zzz");
            Render(b) == Screen(NotFound, true, Total(2))
  {
    NothingMatchesZzz(anna, boris);
  }

  lemma NothingMatchesZzz(anna: Comment, boris: Comment)
    requires anna.author == "Anna" && anna.message == "Hello"
    requires boris.author == "Boris" && boris.message == "Hi"
    ensures Filter([anna, boris], "zzz") == []
  {
    AnnaLacksZ(anna);
    BorisLacksZ(boris);
    assert [anna, boris][1..] == [boris];
    assert Filter([boris], "zzz") == [];
  }

  lemma AnnaMatchesAnna(anna: Comment)
    requires anna.author == "Anna"
    ensures Matches(anna, "anna")
  {
    assert ToLower("Anna") == "anna" && ToLower("anna") == "anna";
    assert StartsWith("anna", "anna");
  }

  lemma BorisLacksAnna(boris: Comment)
    requires boris.author == "Boris" && boris.message == "Hi"
    ensures !Matches(boris, "anna")
  {
    assert ToLower("anna") == "anna";
    assert ToLower("Boris") == "boris" && ToLower("Hi") == "hi";
    MissingCharNotContained("boris", "anna", 'a');
    MissingCharNotContained("hi", "anna", 'a');
  }

  lemma AnnaLacksZ(anna: Comment)
    requires anna.author == "Anna" && anna.message == "Hello"
    ensures !Matches(anna, "zzz")
  {
    assert ToLower("zzz") == "zzz";
    assert ToLower("Anna") == "anna" && ToLower("Hello") == "hello";
    MissingCharNotContained("anna", "zzz", 'z');
    MissingCharNotContained("hello", "zzz", 'z');
  }

  lemma BorisLacksZ(boris: Comment)
    requires boris.author == "Boris" && boris.message == "Hi"
    ensures !Matches(boris, "zzz")
  {
    assert ToLower("zzz") == "zzz";
    assert ToLower("Boris") == "boris" && ToLower("Hi") == "hi";
    MissingCharNotContained("boris", "zzz", 'z');
    MissingCharNotContained("hi", "zzz", 'z');
  }

  /** A fresh page shows the empty placeholder, no search box and no count. */
  lemma EmptyBoardScenario()
    ensures Render(Initial()) == Screen(NoComments, false, Hidden)
  {
  }
}
