/**
 The `reviews` table and the two request handlers around it:
 `create_review` validates a review text, classifies it and inserts a row
 with a fresh AUTOINCREMENT id; `get_reviews` validates an optional
 sentiment filter and returns the matching rows, newest first. The database
 is replaced by a sequence of rows and a next-id counter, and the clock by a
 timestamp the caller passes in.
 */
module Reviews {
  import opened Wrappers
  import opened Strings
  import opened Sentiment

  /** One row of the table: what `create_review` returns and `get_reviews` lists. */
  datatype Review = Review(id: nat, text: string, sentiment: Label, createdAt: string)

  /** Why a request is refused; each of these is a validation error (HTTP 400). */
  datatype Error = MissingText | EmptyText | InvalidSentiment

  /** A stored text is non-empty and has no whitespace at either end. */
  predicate StoredText(r: Review) {
    r.text != [] && !IsSpace(r.text[0]) && !IsSpace(r.text[|r.text| - 1])
  }

  /** A stored label is the one the classifier gives the stored text. */
  predicate Classified(r: Review) {
    r.sentiment == Analyze(r.text)
  }

  // ---------------------------------------------------------------------
  // Request validation
  // ---------------------------------------------------------------------

  /**
   The checks `create_review` makes on the `text` field: it must be present,
   and what is left after stripping is the text that gets stored, which
   must not be empty.
   */
  function CheckText(text: Option<string>): (r: Result<string, Error>)
    ensures text.None? ==> r == Failure(MissingText)
    ensures text.Some? ==> (r == Failure(EmptyText) <==> AllSpace(text.value))
    ensures r.Success? <==> text.Some? && !AllSpace(text.value)
    ensures r.Success? ==> text.Some? && r.value == Strip(text.value) && r.value != []
    ensures r.Success? ==> !IsSpace(r.value[0]) && !IsSpace(r.value[|r.value| - 1])
  {
    match text
    case None => Failure(MissingText)
    case Some(t) =>
      var s := Strip(t);
      if s == [] then Failure(EmptyText)
      else Success(s)
  }

  /**
   The `sentiment` query argument of `get_reviews`: absent or empty means
   no filter, one of the three label names filters by that label, and any
   other value is refused.
   */
  function CheckFilter(arg: Option<string>): (r: Result<Option<Label>, Error>)
    ensures arg.None? || arg == Some("") ==> r == Success(None)
    ensures r == Failure(InvalidSentiment) <==>
      arg.Some? && arg.value != "" && arg.value !in ["positive", "negative", "neutral"]
    ensures r.Success? && r.value.Some? ==> arg == Some(Name(r.value.value))
    ensures forall l :: arg == Some(Name(l)) ==> r == Success(Some(l))
  {
    match arg
    case None => Success(None)
    case Some(s) =>
      if s == "" then Success(None)
      else
        match ParseLabel(s)
        case None => Failure(InvalidSentiment)
        case Some(l) => Success(Some(l))
  }

  // ---------------------------------------------------------------------
  // The query: WHERE sentiment = ? ORDER BY created_at DESC
  // ---------------------------------------------------------------------

  /** A row passes the filter: there is none, or the row carries that label. */
  predicate Selected(r: Review, filter: Option<Label>) {
    filter.None? || r.sentiment == filter.value
  }

  /** The rows the `WHERE` clause keeps, in table order; without a filter, all of them. */
  function Where(rows: seq<Review>, filter: Option<Label>): (r: seq<Review>)
    ensures forall x :: x in r <==> x in rows && Selected(x, filter)
    ensures filter.None? ==> r == rows
  {
    if rows == [] then []
    else
      var rest := Where(rows[1..], filter);
      assert forall x :: x in rows <==> x == rows[0] || x in rows[1..];
      assert rows == [rows[0]] + rows[1..];
      if Selected(rows[0], filter) then [rows[0]] + rest else rest
  }

  /** Adding a row adds it to the rows the filter keeps exactly when it passes the filter. */
  lemma {:induction false} WhereAppend(rows: seq<Review>, x: Review, filter: Option<Label>)
    ensures Where(rows + [x], filter) ==
      Where(rows, filter) + (if Selected(x, filter) then [x] else [])
  {
    if rows == [] {
      assert rows + [x] == [x];
    } else {
      assert (rows + [x])[1..] == rows[1..] + [x];
      WhereAppend(rows[1..], x, filter);
    }
  }

  /** Newest first: no row is earlier than a row after it. */
  ghost predicate NewestFirst(s: seq<Review>) {
    forall i, j | 0 <= i < j < |s| :: !Less(s[i].createdAt, s[j].createdAt)
  }

  /** No two rows share a timestamp. */
  ghost predicate DistinctTimes(s: seq<Review>) {
    forall i, j | 0 <= i < j < |s| :: s[i].createdAt != s[j].createdAt
  }

  /** A row not earlier than any row of a newest-first list can go in front of it. */
  lemma NewestFirstCons(y: Review, t: seq<Review>)
    requires NewestFirst(t)
    requires forall j | 0 <= j < |t| :: !Less(y.createdAt, t[j].createdAt)
    ensures NewestFirst([y] + t)
  {
    var s := [y] + t;
    forall i, j | 0 <= i < j < |s| ensures !Less(s[i].createdAt, s[j].createdAt) {
      if i == 0 {
        assert s[j] == t[j - 1];
      } else {
        assert s[i] == t[i - 1] && s[j] == t[j - 1];
      }
    }
  }

  /** A row not earlier than any row of `tail`, nor than `x`, is not earlier than any row of a reordering of both. */
  lemma NotBeforeAny(head: Review, x: Review, tail: seq<Review>, rest: seq<Review>)
    requires forall j | 0 <= j < |tail| :: !Less(head.createdAt, tail[j].createdAt)
    requires !Less(head.createdAt, x.createdAt)
    requires multiset(rest) == multiset(tail) + multiset{x}
    ensures forall j | 0 <= j < |rest| :: !Less(head.createdAt, rest[j].createdAt)
  {
    forall j | 0 <= j < |rest| ensures !Less(head.createdAt, rest[j].createdAt) {
      assert rest[j] in multiset(rest);
      if rest[j] != x {
        assert rest[j] in tail;
      }
    }
  }

  /** Puts `x` into newest-first `s`, ahead of the first row it is not earlier than. */
  function InsertByTime(x: Review, s: seq<Review>): (r: seq<Review>)
    requires NewestFirst(s)
    ensures NewestFirst(r)
    ensures multiset(r) == multiset(s) + multiset{x}
  {
    if s == [] then [x]
    else if !Less(x.createdAt, s[0].createdAt) then
      assert forall j | 0 <= j < |s| :: !Less(x.createdAt, s[j].createdAt) by {
        forall j | 0 <= j < |s| ensures !Less(x.createdAt, s[j].createdAt) {
          if j > 0 {
            NotLessTransitive(x.createdAt, s[0].createdAt, s[j].createdAt);
          }
        }
      }
      NewestFirstCons(x, s);
      [x] + s
    else
      var tail := s[1..];
      assert forall j | 0 <= j < |tail| :: !Less(s[0].createdAt, tail[j].createdAt) by {
        forall j | 0 <= j < |tail| ensures !Less(s[0].createdAt, tail[j].createdAt) {
          assert tail[j] == s[j + 1];
        }
      }
      var rest := InsertByTime(x, tail);
      assert s == [s[0]] + tail;
      LessAsymmetric(x.createdAt, s[0].createdAt);
      NotBeforeAny(s[0], x, tail, rest);
      NewestFirstCons(s[0], rest);
      [s[0]] + rest
  }

  /** `ORDER BY created_at DESC`: the same rows, newest first. */
  function OrderByNewest(s: seq<Review>): (r: seq<Review>)
    ensures NewestFirst(r)
    ensures multiset(r) == multiset(s)
  {
    if s == [] then []
    else
      assert s == [s[0]] + s[1..];
      InsertByTime(s[0], OrderByNewest(s[1..]))
  }

  /** Two newest-first orders of the same rows with distinct timestamps start alike. */
  lemma SameNewest(a: seq<Review>, b: seq<Review>)
    requires NewestFirst(a) && NewestFirst(b) && DistinctTimes(a)
    requires multiset(a) == multiset(b) && a != [] && b != []
    ensures a[0] == b[0]
  {
    assert b[0] in multiset(a);
    var n :| 0 <= n < |a| && a[n] == b[0];
    if n != 0 {
      assert a[0] in multiset(b);
      var m :| 0 <= m < |b| && b[m] == a[0];
      assert m != 0;
      assert !Less(a[0].createdAt, a[n].createdAt);
      assert !Less(b[0].createdAt, b[m].createdAt);
      LessTotal(a[0].createdAt, a[n].createdAt);
      assert false;
    }
  }

  /** Dropping the newest row keeps a list newest first and its timestamps distinct. */
  lemma TailStaysOrdered(a: seq<Review>)
    requires a != []
    ensures NewestFirst(a) ==> NewestFirst(a[1..])
    ensures DistinctTimes(a) ==> DistinctTimes(a[1..])
  {
    forall i, j | 0 <= i < j < |a| - 1
      ensures a[1..][i] == a[i + 1] && a[1..][j] == a[j + 1]
    {
    }
  }

  /**
   With distinct timestamps the newest-first order of a set of rows is
   unique: only ties leave the database any choice.
   */
  lemma {:induction false} NewestFirstUnique(a: seq<Review>, b: seq<Review>)
    requires NewestFirst(a) && NewestFirst(b) && DistinctTimes(a)
    requires multiset(a) == multiset(b)
    ensures a == b
  {
    assert |a| == |multiset(a)| == |multiset(b)| == |b|;
    if a != [] {
      SameNewest(a, b);
      TailStaysOrdered(a);
      TailStaysOrdered(b);
      assert a == [a[0]] + a[1..] && b == [b[0]] + b[1..];
      assert multiset(a[1..]) == multiset(b[1..]) by {
        calc {
          multiset(a[1..]);
          multiset(a) - multiset{a[0]};
          multiset(b) - multiset{b[0]};
          multiset(b[1..]);
        }
      }
      NewestFirstUnique(a[1..], b[1..]);
    }
  }

  /**
   Three rows with increasing times t1 < t2 < t3 have one newest-first
   order only, [t3, t2, t1]; so `ORDER BY created_at DESC` lists them last
   one first.
   */
  lemma ListedInReverseCreationOrder(r1: Review, r2: Review, r3: Review, listed: seq<Review>)
    requires Less(r1.createdAt, r2.createdAt) && Less(r2.createdAt, r3.createdAt)
    requires NewestFirst(listed) && multiset(listed) == multiset([r1, r2, r3])
    ensures listed == [r3, r2, r1]
  {
    var s := [r3, r2, r1];
    var t1, t2, t3 := r1.createdAt, r2.createdAt, r3.createdAt;
    LessTransitive(t1, t2, t3);
    LessAsymmetric(t1, t2);
    LessAsymmetric(t2, t3);
    LessAsymmetric(t1, t3);
    LessIrreflexive(t1);
    LessIrreflexive(t2);
    assert NewestFirst(s);
    assert DistinctTimes(s);
    assert multiset(s) == multiset([r1, r2, r3]);
    NewestFirstUnique(s, listed);
  }

  // ---------------------------------------------------------------------
  // The table
  // ---------------------------------------------------------------------

  /** Ids rise strictly in insertion order, so no two rows share one. */
  ghost predicate IdsIncreasing(rows: seq<Review>) {
    forall i, j | 0 <= i < j < |rows| :: rows[i].id < rows[j].id
  }

  /**
   The table invariant: every row has an id from 1 up and below `nextId`,
   ids rise strictly in insertion order, every text is non-empty and
   stripped, and every label is the classifier's.
   */
  ghost predicate ValidTable(rows: seq<Review>, nextId: nat) {
    && 1 <= nextId
    && (forall r | r in rows :: 1 <= r.id < nextId)
    && IdsIncreasing(rows)
    && (forall r | r in rows :: StoredText(r))
    && (forall r | r in rows :: Classified(r))
  }

  /** A row whose id is above every id of the table may go at its end. */
  lemma IdsIncreasingAppend(rows: seq<Review>, review: Review)
    requires IdsIncreasing(rows)
    requires forall r | r in rows :: r.id < review.id
    ensures IdsIncreasing(rows + [review])
  {
    var rows' := rows + [review];
    forall i, j | 0 <= i < j < |rows'| ensures rows'[i].id < rows'[j].id {
      assert rows'[i] == rows[i] && rows[i] in rows;
      if j < |rows| {
        assert rows'[j] == rows[j];
      }
    }
  }

  lemma StoredTextAppend(rows: seq<Review>, review: Review)
    requires forall r | r in rows :: StoredText(r)
    requires StoredText(review)
    ensures forall r | r in rows + [review] :: StoredText(r)
  {
    assert forall r | r in rows + [review] :: r in rows || r == review;
  }

  lemma ClassifiedAppend(rows: seq<Review>, review: Review)
    requires forall r | r in rows :: Classified(r)
    requires Classified(review)
    ensures forall r | r in rows + [review] :: Classified(r)
  {
    assert forall r | r in rows + [review] :: r in rows || r == review;
  }

  /** Appending a row under the next id, with stripped text and its label, keeps the invariant. */
  lemma AppendKeepsValid(rows: seq<Review>, nextId: nat, review: Review)
    requires ValidTable(rows, nextId) && review.id == nextId
    requires StoredText(review) && Classified(review)
    ensures ValidTable(rows + [review], nextId + 1)
  {
    IdsIncreasingAppend(rows, review);
    StoredTextAppend(rows, review);
    ClassifiedAppend(rows, review);
    assert forall r | r in rows + [review] :: r in rows || r == review;
  }

  class Store {
    /** The rows of the table, in insertion order. */
    var rows: seq<Review>
    /** The id the next insert gets (AUTOINCREMENT, starting at 1). */
    var nextId: nat

    /** The table invariant holds of the current rows and counter. */
    ghost predicate Valid()
      reads this
    {
      ValidTable(rows, nextId)
    }

    /** A freshly initialised, empty table. */
    constructor ()
      ensures Valid()
      ensures rows == [] && nextId == 1
    {
      rows := [];
      nextId := 1;
    }

    /**
     `create_review`: refuses a missing text or one that strips to nothing,
     leaving the table as it was; otherwise inserts exactly one row holding
     the stripped text, its label and `now`, with an id above every id
     already in the table, and returns that row.
     */
    method Create(text: Option<string>, now: string) returns (r: Result<Review, Error>)
      requires Valid()
      modifies this
      ensures Valid()
      ensures CheckText(text).Failure? ==>
        r == Failure(CheckText(text).error) && rows == old(rows) && nextId == old(nextId)
      ensures CheckText(text).Success? ==>
        && r == Success(Review(old(nextId), Strip(text.value), Analyze(Strip(text.value)), now))
        && rows == old(rows) + [r.value]
        && nextId == old(nextId) + 1
      ensures r.Success? ==> forall x | x in old(rows) :: x.id < r.value.id
    {
      var checked := CheckText(text);
      if checked.Failure? {
        return Failure(checked.error);
      }
      var stripped := checked.value;
      var review := Review(nextId, stripped, Analyze(stripped), now);
      AppendKeepsValid(rows, nextId, review);
      rows := rows + [review];
      nextId := nextId + 1;
      r := Success(review);
    }

    /**
     `get_reviews`: refuses a non-empty filter that names no label;
     otherwise returns exactly the rows that pass the filter (all rows when
     there is none), each once, newest first.
     */
    method List(arg: Option<string>) returns (r: Result<seq<Review>, Error>)
      ensures r.Failure? <==> CheckFilter(arg).Failure?
      ensures r.Failure? ==> r.error == InvalidSentiment
      ensures r.Success? ==>
        && NewestFirst(r.value)
        && multiset(r.value) == multiset(Where(rows, CheckFilter(arg).value))
      ensures r.Success? ==>
        forall x :: x in r.value <==> x in rows && Selected(x, CheckFilter(arg).value)
    {
      var filter := CheckFilter(arg);
      if filter.Failure? {
        return Failure(filter.error);
      }
      var fetched := OrderByNewest(Where(rows, filter.value));
      var listed := [];
      for i := 0 to |fetched|
        invariant listed == fetched[..i]
      {
        listed := listed + [fetched[i]];
      }
      assert listed == fetched;
      assert forall x :: x in listed <==> x in multiset(Where(rows, filter.value));
      r := Success(listed);
    }
  }

  /** A listing after a successful create holds the new row, both unfiltered and under its own label. */
  lemma CreatedRowIsListed(rows: seq<Review>, x: Review)
    ensures x in OrderByNewest(Where(rows + [x], None))
    ensures x in OrderByNewest(Where(rows + [x], Some(x.sentiment)))
  {
    WhereAppend(rows, x, Some(x.sentiment));
    assert x in multiset(Where(rows + [x], Some(x.sentiment)));
    assert x in multiset(rows + [x]);
  }

  // ---------------------------------------------------------------------
  // Clients: example requests, answered from the contracts alone
  // ---------------------------------------------------------------------

  /** A blank or missing review text is refused and stores nothing; an unknown filter is refused. */
  method BlankReviewsAreRefused(blank: string, now: string)
    requires AllSpace(blank)
  {
    var store := new Store();
    var refused := store.Create(Some(blank), now);
    assert refused == Failure(EmptyText) && store.rows == [];
    var missing := store.Create(None, now);
    assert missing == Failure(MissingText) && store.rows == [];
    var bogus := store.List(Some("bogus"));
    assert bogus == Failure(InvalidSentiment);
  }

  /** Round trip: a text that is not blank is accepted, and the created review is in the unfiltered listing. */
  method CreateThenListAll(text: string, now: string)
    requires !AllSpace(text)
  {
    var store := new Store();
    var created := store.Create(Some(text), now);
    assert created.Success?;
    var row := created.value;
    assert store.rows == [row] && row.text == Strip(text);
    var everything := store.List(None);
    assert everything.Success? && row in everything.value;
  }

  /** Round trip: the created review is listed under the label the classifier gives its stripped text. */
  method CreateThenListByLabel(text: string, now: string)
    requires !AllSpace(text)
  {
    var store := new Store();
    var created := store.Create(Some(text), now);
    assert created.Success?;
    var row := created.value;
    assert store.rows == [row] && row.sentiment == Analyze(Strip(text));
    var same := store.List(Some(Name(row.sentiment)));
    assert same.Success? && row in same.value;
    assert forall x | x in same.value :: x.sentiment == row.sentiment;
  }

  /** One accepted create, seen from outside: exactly one row with the given time is appended. */
  method CreateAccepted(store: Store, text: string, now: string) returns (row: Review)
    requires store.Valid() && !AllSpace(text)
    modifies store
    ensures store.Valid() && store.rows == old(store.rows) + [row] && row.createdAt == now
  {
    var created := store.Create(Some(text), now);
    row := created.value;
  }

  /** Three reviews created at increasing times are listed newest first: the last one created comes first. */
  method CreateThreeThenListAll(t1: string, t2: string, t3: string, now1: string, now2: string, now3: string)
    requires !AllSpace(t1) && !AllSpace(t2) && !AllSpace(t3)
    requires Less(now1, now2) && Less(now2, now3)
  {
    var store := new Store();
    var r1 := CreateAccepted(store, t1, now1);
    var r2 := CreateAccepted(store, t2, now2);
    var r3 := CreateAccepted(store, t3, now3);
    assert store.rows == [r1, r2, r3];
    var listed := store.List(None);
    assert listed.Success?;
    ListedInReverseCreationOrder(r1, r2, r3, listed.value);
    assert listed.value == [r3, r2, r1];
  }
}
