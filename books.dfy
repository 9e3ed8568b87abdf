/**
 * Book records: the shared id counter, the two constructors that advance
 * it, and the one-line codec (`toDataString` / `fromString`).
 */
module Books {
  import opened Wrappers
  import opened JavaInt
  import opened Text

  /** The five values a book carries, in the order the line format lists them. */
  datatype Fields = Fields(id: int, name: string, author: string, genre: string, dateTimeAdded: string)

  /**
   * The counter that hands out ids (a static `int` in the original, here an
   * object shared by everything that creates books).
   */
  class IdCounter {
    var next: int

    ghost predicate Valid()
      reads this
    {
      IsInt32(next)
    }

    constructor ()
      ensures Valid() && next == 1
    {
      next := 1;
    }
  }

  /** Counter value after a book with the explicit id `id` is constructed. */
  function AfterExplicit(counter: int, id: int): int
  {
    Max(counter, Wrap(id + 1))
  }

  /**
   * Counter value after an auto-id book is constructed: the post-increment
   * followed by the explicit-id rule for the id just taken.
   */
  function AfterAuto(counter: int): int
  {
    AfterExplicit(Wrap(counter + 1), counter)
  }

  /** An explicit id below `MaxInt` pushes the counter strictly past it, and the counter never goes down. */
  lemma AfterExplicitBounds(counter: int, id: int)
    requires id < MaxInt
    ensures id < AfterExplicit(counter, id)
    ensures counter <= AfterExplicit(counter, id)
  {
  }

  /** Taking an auto id below `MaxInt` leaves the counter exactly one higher. */
  lemma AfterAutoIncrements(counter: int)
    requires IsInt32(counter) && counter < MaxInt
    ensures AfterAuto(counter) == counter + 1
  {
  }

  /** Taking the auto id `MaxInt` wraps the counter round to `MinInt`. */
  lemma AfterAutoWraps()
    ensures AfterAuto(MaxInt) == MinInt
  {
  }

  class Book {
    const id: int
    const name: string
    const author: string
    const genre: string
    const dateTimeAdded: string

    /** The explicit-id constructor; it raises the counter to `max(counter, id + 1)`. */
    constructor WithId(counter: IdCounter, id: int, name: string, author: string, genre: string, dateTimeAdded: string)
      requires IsInt32(id) && counter.Valid()
      modifies counter
      ensures counter.Valid()
      ensures Fields(this.id, this.name, this.author, this.genre, this.dateTimeAdded)
           == Fields(id, name, author, genre, dateTimeAdded)
      ensures counter.next == AfterExplicit(old(counter.next), id)
    {
      this.id := id;
      this.name := name;
      this.author := author;
      this.genre := genre;
      this.dateTimeAdded := dateTimeAdded;
      new;
      counter.next := AfterExplicit(counter.next, id);
    }

    /** The auto-id constructor: takes the counter's value as the id and post-increments it. */
    constructor Auto(counter: IdCounter, name: string, author: string, genre: string, dateTimeAdded: string)
      requires counter.Valid()
      modifies counter
      ensures counter.Valid()
      ensures Fields(this.id, this.name, this.author, this.genre, this.dateTimeAdded)
           == Fields(old(counter.next), name, author, genre, dateTimeAdded)
      ensures counter.next == AfterAuto(old(counter.next))
    {
      this.id := counter.next;
      this.name := name;
      this.author := author;
      this.genre := genre;
      this.dateTimeAdded := dateTimeAdded;
      new;
      counter.next := Wrap(counter.next + 1);
      counter.next := AfterExplicit(counter.next, id);
    }

    /** What `fromString` gives back; `NoBook` is its `null`, `NumberFormatError` the exception `parseInt` throws. */
    static method FromString(counter: IdCounter, line: string) returns (r: Parsed)
      requires counter.Valid()
      modifies counter
      ensures counter.Valid()
      ensures match ParseLine(line)
        case Skipped => r == NoBook && counter.next == old(counter.next)
        case BadId(_) => r == NumberFormatError && counter.next == old(counter.next)
        case Record(f) =>
          r.Made? && fresh(r.book) && FieldsOf(r.book) == f
          && counter.next == AfterExplicit(old(counter.next), f.id)
    {
      var p := Split(line, '|');
      if |p| != 5 {
        return NoBook;
      }
      var id := ParseInt(p[0]);
      if id.None? {
        return NumberFormatError;
      }
      var b := new Book.WithId(counter, id.value, p[1], p[2], p[3], p[4]);
      r := Made(b);
    }
  }

  datatype Parsed = NoBook | Made(book: Book) | NumberFormatError

  function FieldsOf(b: Book): Fields
  {
    Fields(b.id, b.name, b.author, b.genre, b.dateTimeAdded)
  }

  /** The five fields as text, in line order, the id in decimal. */
  function Columns(f: Fields): seq<string>
  {
    [IntToString(f.id), f.name, f.author, f.genre, f.dateTimeAdded]
  }

  /** `toDataString`: the five fields joined with `|`, no escaping. */
  function ToDataString(f: Fields): string
  {
    Join("|", Columns(f))
  }

  /** How `fromString` treats one line, before any book is constructed. */
  datatype LineParse = Skipped | BadId(text: string) | Record(fields: Fields)

  /**
   * `fromString` without the construction: a record exactly when the
   * `|`-split has five parts and the first parses as an `int`.
   */
  function ParseLine(line: string): (r: LineParse)
    ensures r.Skipped? <==> |Split(line, '|')| != 5
    ensures r.Record? ==> IsInt32(r.fields.id)
  {
    var p := Split(line, '|');
    if |p| != 5 then Skipped
    else match ParseInt(p[0])
      case None => BadId(p[0])
      case Some(n) => Record(Fields(n, p[1], p[2], p[3], p[4]))
  }

  /** A record the line format can carry: an `int` id and no `|` inside a text field. */
  predicate Delimitable(f: Fields)
  {
    IsInt32(f.id) && '|' !in f.name && '|' !in f.author && '|' !in f.genre && '|' !in f.dateTimeAdded
  }

  /** The `|`-pieces of a formatted record are exactly its five fields. */
  lemma PiecesOfDataString(f: Fields)
    requires Delimitable(f)
    ensures Pieces(ToDataString(f), '|') == Columns(f)
  {
    var id := IntToString(f.id);
    assert forall i :: 0 <= i < |id| ==> id[i] != '|';
    PiecesOfJoined('|', Columns(f));
  }

  /** A record with a delimiter-free, non-empty date survives `toDataString` then `fromString`. */
  lemma RoundTrip(f: Fields)
    requires Delimitable(f) && f.dateTimeAdded != ""
    ensures ParseLine(ToDataString(f)) == Record(f)
  {
    var s := ToDataString(f);
    PiecesOfDataString(f);
    assert s[|IntToString(f.id)|] == '|';
    ParseIntRoundTrip(f.id);
  }

  /** An empty date is a trailing empty field that `split` drops, so the line is skipped on reading. */
  lemma EmptyDateIsSkipped(f: Fields)
    requires Delimitable(f) && f.dateTimeAdded == ""
    ensures ParseLine(ToDataString(f)) == Skipped
  {
    var s := ToDataString(f);
    PiecesOfDataString(f);
    assert s[|IntToString(f.id)|] == '|';
    var p := Pieces(s, '|');
    assert p[4] == "";
    assert |DropTrailingEmpty(p)| < 5;
  }

  /** With a `|` inside the title, the written line is the join of six columns. */
  lemma DataStringOfSplitName(f: Fields, left: string, right: string)
    requires f.name == left + "|" + right
    ensures ToDataString(f) == Join("|", [IntToString(f.id), left, right, f.author, f.genre, f.dateTimeAdded])
  {
    var cols := [IntToString(f.id), left, right, f.author, f.genre, f.dateTimeAdded];
    var rest := [f.author, f.genre, f.dateTimeAdded];
    var tail := Join("|", rest);
    assert cols[1..][1..][1..] == rest;
    assert Join("|", cols[1..][1..]) == right + "|" + tail;
    assert Join("|", cols[1..]) == left + "|" + (right + "|" + tail);
    assert Columns(f)[1..][1..] == rest;
    assert Join("|", Columns(f)[1..]) == (left + "|" + right) + "|" + tail;
  }

  /** A `|` inside the title adds a sixth non-empty part, so the record does not come back. */
  lemma DelimiterInNameBreaksRoundTrip(f: Fields, left: string, right: string)
    requires f.name == left + "|" + right && '|' !in left && '|' !in right
    requires IsInt32(f.id) && '|' !in f.author && '|' !in f.genre && '|' !in f.dateTimeAdded
    requires f.dateTimeAdded != ""
    ensures ParseLine(ToDataString(f)) == Skipped
  {
    var id := IntToString(f.id);
    assert forall i :: 0 <= i < |id| ==> id[i] != '|';
    var cols := [id, left, right, f.author, f.genre, f.dateTimeAdded];
    DataStringOfSplitName(f, left, right);
    PiecesOfJoined('|', cols);
    var s := ToDataString(f);
    assert s[|id|] == '|';
  }

  /** One step of id assignment: a book built without (`AutoId`) or with an explicit id. */
  datatype IdRequest = AutoId | ExplicitId(id: int)

  /** The id a request receives when the counter stands at `counter`. */
  function IssuedId(counter: int, req: IdRequest): int
  {
    match req
    case AutoId => counter
    case ExplicitId(id) => id
  }

  function CounterAfter(counter: int, req: IdRequest): int
  {
    match req
    case AutoId => AfterAuto(counter)
    case ExplicitId(id) => AfterExplicit(counter, id)
  }

  /** The ids a sequence of constructions receives, starting from `counter`. */
  function IssuedIds(counter: int, reqs: seq<IdRequest>): (ids: seq<int>)
    ensures |ids| == |reqs|
    decreases |reqs|
  {
    if reqs == [] then []
    else [IssuedId(counter, reqs[0])] + IssuedIds(CounterAfter(counter, reqs[0]), reqs[1..])
  }

  /** The counter after a sequence of constructions. */
  function FinalCounter(counter: int, reqs: seq<IdRequest>): int
    decreases |reqs|
  {
    if reqs == [] then counter else FinalCounter(CounterAfter(counter, reqs[0]), reqs[1..])
  }

  /** No step of the sequence reaches `MaxInt`, so no `int` arithmetic wraps. */
  predicate NoOverflow(counter: int, reqs: seq<IdRequest>)
    decreases |reqs|
  {
    reqs == [] ||
    (IssuedId(counter, reqs[0]) < MaxInt && NoOverflow(CounterAfter(counter, reqs[0]), reqs[1..]))
  }

  /**
   * Without overflow every id handed out stays below the final counter, and
   * the counter never decreases.
   */
  lemma {:induction false} IdsBelowFinalCounter(counter: int, reqs: seq<IdRequest>)
    requires IsInt32(counter) && NoOverflow(counter, reqs)
    ensures counter <= FinalCounter(counter, reqs)
    ensures forall i :: 0 <= i < |reqs| ==> IssuedIds(counter, reqs)[i] < FinalCounter(counter, reqs)
    decreases |reqs|
  {
    if reqs != [] {
      var c1 := CounterAfter(counter, reqs[0]);
      match reqs[0] {
        case AutoId => AfterAutoIncrements(counter);
        case ExplicitId(id) => AfterExplicitBounds(counter, id);
      }
      IdsBelowFinalCounter(c1, reqs[1..]);
    }
  }

  /**
   * Without overflow each auto id is strictly greater than every id handed
   * out before it, explicit ones included.
   */
  lemma {:induction false} AutoIdsExceedEarlierIds(counter: int, reqs: seq<IdRequest>)
    requires IsInt32(counter) && NoOverflow(counter, reqs)
    ensures forall i, j ::
              0 <= i < j < |reqs| && reqs[j] == AutoId ==> IssuedIds(counter, reqs)[i] < IssuedIds(counter, reqs)[j]
    decreases |reqs|
  {
    if reqs != [] {
      var c1 := CounterAfter(counter, reqs[0]);
      var ids := IssuedIds(counter, reqs);
      var rest := IssuedIds(c1, reqs[1..]);
      assert ids == [IssuedId(counter, reqs[0])] + rest;
      match reqs[0] {
        case AutoId => AfterAutoIncrements(counter);
        case ExplicitId(id) => AfterExplicitBounds(counter, id);
      }
      AutoIdsExceedEarlierIds(c1, reqs[1..]);
      AutoIdsFromCounter(c1, reqs[1..]);
    }
  }

  /** Without overflow every auto id is at least the counter the sequence started from. */
  lemma {:induction false} AutoIdsFromCounter(counter: int, reqs: seq<IdRequest>)
    requires IsInt32(counter) && NoOverflow(counter, reqs)
    ensures forall j :: 0 <= j < |reqs| && reqs[j] == AutoId ==> counter <= IssuedIds(counter, reqs)[j]
    decreases |reqs|
  {
    if reqs != [] {
      var c1 := CounterAfter(counter, reqs[0]);
      match reqs[0] {
        case AutoId => AfterAutoIncrements(counter);
        case ExplicitId(id) => AfterExplicitBounds(counter, id);
      }
      AutoIdsFromCounter(c1, reqs[1..]);
    }
  }

  /** Auto ids taken one after another are consecutive while no overflow occurs. */
  lemma {:induction false} AutoIdsIncrease(counter: int, n: nat)
    requires IsInt32(counter) && counter + n <= MaxInt
    ensures IssuedIds(counter, seq(n, _ => AutoId)) == seq(n, i => counter + i)
    decreases n
  {
    if n > 0 {
      AfterAutoIncrements(counter);
      AutoIdsIncrease(counter + 1, n - 1);
      assert seq(n, _ => AutoId)[1..] == seq(n - 1, _ => AutoId);
    }
  }

  /**
   * Starting from a fresh counter: an auto id gets 1, the explicit id 5
   * leaves the counter at 6, and the next auto id is 6.
   */
  lemma FreshCounterScenario()
    ensures IssuedIds(1, [AutoId, ExplicitId(5), AutoId]) == [1, 5, 6]
    ensures FinalCounter(1, [AutoId, ExplicitId(5), AutoId]) == 7
  {
  }

  /**
   * The explicit id `MaxInt` overflows `id + 1` to `MinInt`, so the counter
   * does not move and the next auto id is below the one just given.
   */
  lemma MaxIdDoesNotAdvanceCounter()
    ensures IssuedIds(1, [ExplicitId(MaxInt), AutoId]) == [MaxInt, 1]
  {
  }
}
