/**
 * The record store: an ordered list of books held in memory and mirrored
 * to the text file `library_books.txt`, one `toDataString` line per book.
 */
module Store {
  import opened Wrappers
  import opened JavaInt
  import opened Text
  import opened Books

  /** The field values of each book, in list order. */
  function Records(bs: seq<Book>): (r: seq<Fields>)
    ensures |r| == |bs|
  {
    seq(|bs|, i requires 0 <= i < |bs| => FieldsOf(bs[i]))
  }

  /** What `save` writes: each record's `toDataString` followed by a newline. */
  function Serialize(fs: seq<Fields>): string
  {
    if fs == [] then "" else ToDataString(fs[0]) + "\n" + Serialize(fs[1..])
  }

  lemma {:induction false} SerializeAppend(fs: seq<Fields>, f: Fields)
    ensures Serialize(fs + [f]) == Serialize(fs) + ToDataString(f) + "\n"
  {
    if fs != [] {
      assert (fs + [f])[1..] == fs[1..] + [f];
      SerializeAppend(fs[1..], f);
    } else {
      assert [f][1..] == [];
    }
  }

  // ----- removeBook -----

  /** `ArrayList.remove(Object)`: drops the first element that is the very object `b`. */
  function RemoveFirst(s: seq<Book>, b: Book): seq<Book>
  {
    if s == [] then []
    else if s[0] == b then s[1..]
    else [s[0]] + RemoveFirst(s[1..], b)
  }

  /** Index of the first occurrence of `b` in `s`. */
  function FirstIndex(s: seq<Book>, b: Book): (i: nat)
    requires b in s
    ensures i < |s| && s[i] == b && b !in s[..i]
  {
    if s[0] == b then 0 else 1 + FirstIndex(s[1..], b)
  }

  /**
   * Removal takes out exactly the first occurrence of `b`, keeping the
   * rest in order; when `b` is absent nothing changes.
   */
  lemma {:induction false} RemoveFirstSpec(s: seq<Book>, b: Book)
    ensures b in s ==> RemoveFirst(s, b) == s[..FirstIndex(s, b)] + s[FirstIndex(s, b) + 1..]
    ensures b !in s ==> RemoveFirst(s, b) == s
  {
    if s != [] && s[0] != b {
      RemoveFirstSpec(s[1..], b);
      assert s == [s[0]] + s[1..];
      if b in s {
        assert b in s[1..];
        var i := FirstIndex(s[1..], b);
        assert FirstIndex(s, b) == i + 1;
        assert [s[0]] + s[1..][..i] == s[..i + 1];
        assert s[1..][i + 1..] == s[i + 2..];
      }
    }
  }

  /** Removal of a present book shortens the list by one and removes one copy of it from the multiset. */
  lemma {:induction false} RemoveFirstCount(s: seq<Book>, b: Book)
    requires b in s
    ensures |RemoveFirst(s, b)| == |s| - 1
    ensures multiset(RemoveFirst(s, b)) == multiset(s) - multiset{b}
  {
    if s[0] != b {
      RemoveFirstCount(s[1..], b);
      assert s == [s[0]] + s[1..];
    } else {
      assert s == [b] + s[1..];
    }
  }

  // ----- search -----

  /** The match test of `search`: the lower-cased title or genre contains the lower-cased query. */
  predicate Matches(b: Book, query: string)
  {
    Contains(Lower(b.name), Lower(query)) || Contains(Lower(b.genre), Lower(query))
  }

  /** The books of `s` that match `query`, in list order. */
  function Matching(s: seq<Book>, query: string): seq<Book>
  {
    if s == [] then []
    else if Matches(s[0], query) then [s[0]] + Matching(s[1..], query)
    else Matching(s[1..], query)
  }

  /** `r` is `s` with some elements left out, the others in their order. */
  predicate IsSubsequence(r: seq<Book>, s: seq<Book>)
  {
    r == [] || (s != [] && ((r[0] == s[0] && IsSubsequence(r[1..], s[1..])) || IsSubsequence(r, s[1..])))
  }

  lemma {:induction false} MatchingAppend(s: seq<Book>, b: Book, query: string)
    ensures Matching(s + [b], query) == Matching(s, query) + (if Matches(b, query) then [b] else [])
  {
    if s != [] {
      assert (s + [b])[1..] == s[1..] + [b];
      MatchingAppend(s[1..], b, query);
    } else {
      assert [b][1..] == [];
    }
  }

  /**
   * The search result keeps the list order, and a book is in it exactly
   * when it is in the list and matches.
   */
  lemma {:induction false} MatchingSpec(s: seq<Book>, query: string)
    ensures IsSubsequence(Matching(s, query), s)
    ensures forall b :: b in Matching(s, query) <==> b in s && Matches(b, query)
    ensures forall b :: multiset(Matching(s, query))[b] == if Matches(b, query) then multiset(s)[b] else 0
  {
    if s != [] {
      MatchingSpec(s[1..], query);
      assert s == [s[0]] + s[1..];
      if Matches(s[0], query) {
        assert Matching(s, query) == [s[0]] + Matching(s[1..], query);
      }
    }
  }

  /** The empty query matches every book, so it returns the whole list. */
  lemma {:induction false} EmptyQueryMatchesAll(s: seq<Book>)
    ensures Matching(s, "") == s
  {
    if s != [] {
      assert Lower("") == "";
      assert Matches(s[0], "");
      EmptyQueryMatchesAll(s[1..]);
    }
  }

  /** Searching is insensitive to the letter case of the query. */
  lemma {:induction false} MatchingIgnoresQueryCase(s: seq<Book>, query: string)
    ensures Matching(s, Lower(query)) == Matching(s, query)
  {
    LowerIdempotent(query);
    if s != [] {
      MatchingIgnoresQueryCase(s[1..], query);
    }
  }

  // ----- sorting -----

  /** The three orders the list can be sorted in. */
  datatype SortKey = ByAuthor | ByDate | ById

  /** `x` may come before `y`: the comparator of the chosen key says `x <= y`. */
  predicate KeyLeq(k: SortKey, x: Book, y: Book)
  {
    match k
    case ByAuthor => LexLeq(x.author, y.author)
    case ByDate => LexLeq(x.dateTimeAdded, y.dateTimeAdded)
    case ById => x.id <= y.id
  }

  /** The comparator calls `x` and `y` equal. */
  predicate SameKey(k: SortKey, x: Book, y: Book)
  {
    match k
    case ByAuthor => x.author == y.author
    case ByDate => x.dateTimeAdded == y.dateTimeAdded
    case ById => x.id == y.id
  }

  lemma {:induction false} LexLeqReflexive(a: string)
    ensures LexLeq(a, a)
  {
    if a != [] {
      LexLeqReflexive(a[1..]);
    }
  }

  lemma KeyLeqTotal(k: SortKey, x: Book, y: Book)
    ensures KeyLeq(k, x, y) || KeyLeq(k, y, x)
  {
    match k {
      case ByAuthor => LexLeqTotal(x.author, y.author);
      case ByDate => LexLeqTotal(x.dateTimeAdded, y.dateTimeAdded);
      case ById =>
    }
  }

  lemma KeyLeqTransitive(k: SortKey, x: Book, y: Book, z: Book)
    requires KeyLeq(k, x, y) && KeyLeq(k, y, z)
    ensures KeyLeq(k, x, z)
  {
    match k {
      case ByAuthor => LexLeqTransitive(x.author, y.author, z.author);
      case ByDate => LexLeqTransitive(x.dateTimeAdded, y.dateTimeAdded, z.dateTimeAdded);
      case ById =>
    }
  }

  /** The comparator calls two books equal exactly when each is `<=` the other. */
  lemma SameKeyIffBothLeq(k: SortKey, x: Book, y: Book)
    ensures SameKey(k, x, y) <==> KeyLeq(k, x, y) && KeyLeq(k, y, x)
  {
    match k {
      case ByAuthor =>
        LexLeqReflexive(x.author);
        if LexLeq(x.author, y.author) && LexLeq(y.author, x.author) {
          LexLeqAntisymmetric(x.author, y.author);
        }
      case ByDate =>
        LexLeqReflexive(x.dateTimeAdded);
        if LexLeq(x.dateTimeAdded, y.dateTimeAdded) && LexLeq(y.dateTimeAdded, x.dateTimeAdded) {
          LexLeqAntisymmetric(x.dateTimeAdded, y.dateTimeAdded);
        }
      case ById =>
    }
  }

  predicate SortedBy(k: SortKey, s: seq<Book>)
  {
    forall i, j :: 0 <= i < j < |s| ==> KeyLeq(k, s[i], s[j])
  }

  /** The books of `s` the comparator calls equal to `z`, in their order in `s`. */
  function EqualKeys(k: SortKey, s: seq<Book>, z: Book): seq<Book>
  {
    if s == [] then []
    else if SameKey(k, s[0], z) then [s[0]] + EqualKeys(k, s[1..], z)
    else EqualKeys(k, s[1..], z)
  }

  /** Places `x` before the first element it is `<=` to, hence before every equal one. */
  function Insert(k: SortKey, x: Book, t: seq<Book>): seq<Book>
  {
    if t == [] then [x]
    else if KeyLeq(k, x, t[0]) then [x] + t
    else [t[0]] + Insert(k, x, t[1..])
  }

  /**
   * `List.sort` with the comparator of key `k`: a stable sort, written as
   * insertion of each element, front to back, into the sorted rest.
   */
  function SortBy(k: SortKey, s: seq<Book>): seq<Book>
  {
    if s == [] then [] else Insert(k, s[0], SortBy(k, s[1..]))
  }

  lemma {:induction false} InsertPermutes(k: SortKey, x: Book, t: seq<Book>)
    ensures multiset(Insert(k, x, t)) == multiset(t) + multiset{x}
  {
    if t != [] && !KeyLeq(k, x, t[0]) {
      InsertPermutes(k, x, t[1..]);
      assert t == [t[0]] + t[1..];
    }
  }

  lemma {:induction false} InsertSorted(k: SortKey, x: Book, t: seq<Book>)
    requires SortedBy(k, t)
    ensures SortedBy(k, Insert(k, x, t))
  {
    if t != [] {
      if KeyLeq(k, x, t[0]) {
        forall j | 0 <= j < |t| ensures KeyLeq(k, x, t[j]) {
          if j > 0 {
            KeyLeqTransitive(k, x, t[0], t[j]);
          }
        }
      } else {
        KeyLeqTotal(k, x, t[0]);
        InsertSorted(k, x, t[1..]);
        InsertPermutes(k, x, t[1..]);
        var u := Insert(k, x, t[1..]);
        forall j | 0 <= j < |u| ensures KeyLeq(k, t[0], u[j]) {
          assert u[j] in multiset(u);
          assert u[j] == x || u[j] in t[1..];
        }
      }
    }
  }

  lemma {:induction false} InsertKeepsEqualKeys(k: SortKey, x: Book, t: seq<Book>, z: Book)
    ensures EqualKeys(k, Insert(k, x, t), z)
         == if SameKey(k, x, z) then [x] + EqualKeys(k, t, z) else EqualKeys(k, t, z)
  {
    if t != [] {
      if KeyLeq(k, x, t[0]) {
        assert ([x] + t)[1..] == t;
      } else {
        SameKeyIffBothLeq(k, x, t[0]);
        KeyLeqTotal(k, x, t[0]);
        if SameKey(k, x, z) {
          // t[0] is strictly below x, so it is not among the books equal to z
          SameKeyIffBothLeq(k, t[0], z);
          SameKeyIffBothLeq(k, x, z);
          if SameKey(k, t[0], z) {
            KeyLeqTransitive(k, x, z, t[0]);
          }
        }
        InsertKeepsEqualKeys(k, x, t[1..], z);
        assert ([t[0]] + Insert(k, x, t[1..]))[1..] == Insert(k, x, t[1..]);
      }
    }
  }

  /** The sorted list is a permutation of the original. */
  lemma {:induction false} SortByPermutes(k: SortKey, s: seq<Book>)
    ensures multiset(SortBy(k, s)) == multiset(s)
  {
    if s != [] {
      SortByPermutes(k, s[1..]);
      InsertPermutes(k, s[0], SortBy(k, s[1..]));
      assert s == [s[0]] + s[1..];
    }
  }

  /** The sorted list is non-decreasing in the key. */
  lemma {:induction false} SortBySorted(k: SortKey, s: seq<Book>)
    ensures SortedBy(k, SortBy(k, s))
  {
    if s != [] {
      SortBySorted(k, s[1..]);
      InsertSorted(k, s[0], SortBy(k, s[1..]));
    }
  }

  /** Stability: books the comparator calls equal keep their relative order. */
  lemma {:induction false} SortByStable(k: SortKey, s: seq<Book>, z: Book)
    ensures EqualKeys(k, SortBy(k, s), z) == EqualKeys(k, s, z)
  {
    if s != [] {
      SortByStable(k, s[1..], z);
      InsertKeepsEqualKeys(k, s[0], SortBy(k, s[1..]), z);
    }
  }

  lemma {:induction false} EqualKeysHasSelf(k: SortKey, s: seq<Book>, x: Book)
    requires x in s
    ensures x in EqualKeys(k, s, x)
  {
    SameKeyIffBothLeq(k, x, x);
    if s[0] != x {
      EqualKeysHasSelf(k, s[1..], x);
    }
  }

  lemma {:induction false} EqualKeysIn(k: SortKey, s: seq<Book>, z: Book, y: Book)
    requires y in EqualKeys(k, s, z)
    ensures y in s && SameKey(k, y, z)
  {
    if s != [] && !(SameKey(k, s[0], z) && y == s[0]) {
      EqualKeysIn(k, s[1..], z, y);
    }
  }

  /**
   * Two lists sorted by the same key that agree on the order within every
   * group of equal keys are the same list.
   */
  lemma {:induction false} SortedEqualKeysUnique(k: SortKey, t1: seq<Book>, t2: seq<Book>)
    requires SortedBy(k, t1) && SortedBy(k, t2)
    requires forall z :: EqualKeys(k, t1, z) == EqualKeys(k, t2, z)
    ensures t1 == t2
    decreases |t1| + |t2|
  {
    if t1 == [] && t2 != [] {
      EqualKeysHasSelf(k, t2, t2[0]);
    } else if t1 != [] && t2 == [] {
      EqualKeysHasSelf(k, t1, t1[0]);
    } else if t1 != [] {
      var a, b := t1[0], t2[0];
      EqualKeysHasSelf(k, t2, b);
      EqualKeysIn(k, t1, b, b);
      EqualKeysHasSelf(k, t1, a);
      EqualKeysIn(k, t2, a, a);
      var i :| 0 <= i < |t1| && t1[i] == b;
      var j :| 0 <= j < |t2| && t2[j] == a;
      SameKeyIffBothLeq(k, a, a);
      SameKeyIffBothLeq(k, b, b);
      assert KeyLeq(k, a, b);
      assert KeyLeq(k, b, a);
      SameKeyIffBothLeq(k, a, b);
      assert EqualKeys(k, t1, a)[0] == a;
      assert EqualKeys(k, t2, a)[0] == b;
      assert a == b;
      forall z ensures EqualKeys(k, t1[1..], z) == EqualKeys(k, t2[1..], z) {
        assert EqualKeys(k, t1, z) == EqualKeys(k, t2, z);
        if SameKey(k, a, z) {
          assert EqualKeys(k, t1, z) == [a] + EqualKeys(k, t1[1..], z);
          assert EqualKeys(k, t2, z) == [a] + EqualKeys(k, t2[1..], z);
          assert EqualKeys(k, t1, z)[1..] == EqualKeys(k, t1[1..], z);
        }
      }
      SortedEqualKeysUnique(k, t1[1..], t2[1..]);
      assert t1 == [a] + t1[1..];
      assert t2 == [b] + t2[1..];
    }
  }

  /**
   * Any stable sort gives the same list as `SortBy`: a list that is sorted
   * by the key and keeps the order within every group of equal keys of `s`
   * is `SortBy(k, s)`. So the choice of sorting algorithm does not matter.
   */
  lemma SortByUnique(k: SortKey, s: seq<Book>, r: seq<Book>)
    requires SortedBy(k, r)
    requires forall z :: EqualKeys(k, r, z) == EqualKeys(k, s, z)
    ensures r == SortBy(k, s)
  {
    SortBySorted(k, s);
    forall z ensures EqualKeys(k, r, z) == EqualKeys(k, SortBy(k, s), z) {
      SortByStable(k, s, z);
    }
    SortedEqualKeysUnique(k, r, SortBy(k, s));
  }

  // ----- load -----

  /** What `load` reads: the records it keeps, and whether it reached the end (`false`: `parseInt` threw). */
  datatype LoadResult = LoadResult(records: seq<Fields>, complete: bool)

  /**
   * Each line through `fromString`: skipped lines are dropped, a record is
   * kept, and a five-part line with a bad id ends the load with an
   * exception.
   */
  function LoadLines(lines: seq<string>): LoadResult
  {
    if lines == [] then LoadResult([], true)
    else match ParseLine(lines[0])
      case Skipped => LoadLines(lines[1..])
      case BadId(_) => LoadResult([], false)
      case Record(f) =>
        var rest := LoadLines(lines[1..]);
        LoadResult([f] + rest.records, rest.complete)
  }

  /** The lines of the file; a missing or unreadable file has none. */
  function FileLines(file: Option<string>): seq<string>
  {
    match file
    case None => []
    case Some(content) => ReadLines(content)
  }

  /** The counter steps the explicit-id constructor takes for the loaded records. */
  function ExplicitIds(fs: seq<Fields>): (reqs: seq<IdRequest>)
    ensures |reqs| == |fs|
  {
    seq(|fs|, i requires 0 <= i < |fs| => ExplicitId(fs[i].id))
  }

  lemma RecordsAppend(bs: seq<Book>, b: Book)
    ensures Records(bs + [b]) == Records(bs) + [FieldsOf(b)]
  {
  }

  lemma ExplicitIdsAppend(fs: seq<Fields>, f: Fields)
    ensures ExplicitIds(fs + [f]) == ExplicitIds(fs) + [ExplicitId(f.id)]
  {
  }

  /** The records `loaded` so far, followed by what the rest of the file yields. */
  function Prepend(loaded: seq<Fields>, rest: LoadResult): LoadResult
  {
    LoadResult(loaded + rest.records, rest.complete)
  }

  lemma PrependRecord(loaded: seq<Fields>, f: Fields, rest: LoadResult)
    ensures Prepend(loaded, LoadResult([f] + rest.records, rest.complete)) == Prepend(loaded + [f], rest)
  {
    assert loaded + ([f] + rest.records) == (loaded + [f]) + rest.records;
  }

  /** One step of `LoadLines` taken at position `i`. */
  lemma LoadLinesAt(lines: seq<string>, i: nat)
    requires i < |lines|
    ensures LoadLines(lines[i..]) == match ParseLine(lines[i])
      case Skipped => LoadLines(lines[i + 1..])
      case BadId(_) => LoadResult([], false)
      case Record(f) => LoadResult([f] + LoadLines(lines[i + 1..]).records, LoadLines(lines[i + 1..]).complete)
  {
    assert lines[i..][1..] == lines[i + 1..];
  }

  lemma {:induction false} FinalCounterAppend(counter: int, reqs: seq<IdRequest>, r: IdRequest)
    ensures FinalCounter(counter, reqs + [r]) == CounterAfter(FinalCounter(counter, reqs), r)
    decreases |reqs|
  {
    if reqs != [] {
      assert (reqs + [r])[1..] == reqs[1..] + [r];
      FinalCounterAppend(CounterAfter(counter, reqs[0]), reqs[1..], r);
    } else {
      assert [r][1..] == [];
    }
  }

  /** The bookkeeping of `load` for one line that yields the book `b`. */
  lemma LoadStep(start: seq<Book>, bs: seq<Book>, loaded: seq<Fields>, b: Book,
                 lines: seq<string>, i: nat, c0: int, c: int)
    requires i < |lines| && ParseLine(lines[i]) == Record(FieldsOf(b))
    requires Records(bs) == Records(start) + loaded
    requires LoadLines(lines) == Prepend(loaded, LoadLines(lines[i..]))
    requires c == FinalCounter(c0, ExplicitIds(loaded))
    ensures Records(bs + [b]) == Records(start) + (loaded + [FieldsOf(b)])
    ensures LoadLines(lines) == Prepend(loaded + [FieldsOf(b)], LoadLines(lines[i + 1..]))
    ensures AfterExplicit(c, b.id) == FinalCounter(c0, ExplicitIds(loaded + [FieldsOf(b)]))
  {
    LoadLinesAt(lines, i);
    PrependRecord(loaded, FieldsOf(b), LoadLines(lines[i + 1..]));
    FinalCounterAppend(c0, ExplicitIds(loaded), ExplicitId(b.id));
    ExplicitIdsAppend(loaded, FieldsOf(b));
    RecordsAppend(bs, b);
  }

  /**
   * Loading never lowers the counter, and pushes it past every loaded id
   * below `MaxInt`, whatever other ids the file holds.
   */
  lemma {:induction false} LoadRaisesCounter(counter: int, fs: seq<Fields>)
    ensures counter <= FinalCounter(counter, ExplicitIds(fs))
    ensures forall i :: 0 <= i < |fs| && fs[i].id < MaxInt ==> fs[i].id < FinalCounter(counter, ExplicitIds(fs))
    decreases |fs|
  {
    if fs != [] {
      var next := CounterAfter(counter, ExplicitId(fs[0].id));
      assert ExplicitIds(fs)[1..] == ExplicitIds(fs[1..]);
      LoadRaisesCounter(next, fs[1..]);
      forall i | 1 <= i < |fs| && fs[i].id < MaxInt
        ensures fs[i].id < FinalCounter(counter, ExplicitIds(fs))
      {
        assert fs[i] == fs[1..][i - 1];
      }
      if fs[0].id < MaxInt {
        AfterExplicitBounds(counter, fs[0].id);
      }
    }
  }

  /** A record that survives a save and a load unchanged. */
  predicate Storable(f: Fields)
  {
    Delimitable(f) && f.dateTimeAdded != ""
    && NoLineBreak(f.name) && NoLineBreak(f.author) && NoLineBreak(f.genre) && NoLineBreak(f.dateTimeAdded)
  }

  lemma DataStringHasNoLineBreak(f: Fields)
    requires Storable(f)
    ensures NoLineBreak(ToDataString(f))
  {
    var cols := Columns(f);
    assert forall i :: 0 <= i < |IntToString(f.id)| ==> IntToString(f.id)[i] !in LineTerminators;
    assert cols[1..][1..][1..][1..] == [f.dateTimeAdded];
    assert forall i :: 0 <= i < |cols| ==> NoLineBreak(cols[i]);
    NoLineBreakJoin(cols);
  }

  lemma {:induction false} NoLineBreakJoin(parts: seq<string>)
    requires forall i :: 0 <= i < |parts| ==> NoLineBreak(parts[i])
    ensures NoLineBreak(Join("|", parts))
  {
    if |parts| > 1 {
      NoLineBreakJoin(parts[1..]);
    }
  }

  /**
   * Saving and then loading gives back the same records in the same order,
   * and the load runs to the end: a removed book is not resurrected and an
   * added one is not lost.
   */
  lemma {:induction false} SaveThenLoad(fs: seq<Fields>)
    requires forall i :: 0 <= i < |fs| ==> Storable(fs[i])
    ensures LoadLines(ReadLines(Serialize(fs))) == LoadResult(fs, true)
  {
    if fs != [] {
      DataStringHasNoLineBreak(fs[0]);
      ReadLinesOfLine(ToDataString(fs[0]), Serialize(fs[1..]));
      RoundTrip(fs[0]);
      SaveThenLoad(fs[1..]);
      var lines := ReadLines(Serialize(fs));
      assert lines[0] == ToDataString(fs[0]);
      assert lines[1..] == ReadLines(Serialize(fs[1..]));
    }
  }

  /** A line of three `|`-separated fields has the wrong arity and is skipped. */
  lemma ThreeFieldLineSkipped(a: string, b: string, c: string)
    requires '|' !in a && '|' !in b && '|' !in c
    ensures ParseLine(Join("|", [a, b, c])) == Skipped
  {
    var bad := Join("|", [a, b, c]);
    PiecesOfJoined('|', [a, b, c]);
    assert bad[|a|] == '|';
  }

  /** A file with one well-formed line and one three-field line loads as exactly one record. */
  lemma MalformedLineSkipped(f: Fields, a: string, b: string, c: string)
    requires Storable(f)
    requires NoLineBreak(a) && NoLineBreak(b) && NoLineBreak(c)
    requires '|' !in a && '|' !in b && '|' !in c
    ensures LoadLines(ReadLines(ToDataString(f) + "\n" + (Join("|", [a, b, c]) + "\n"))) == LoadResult([f], true)
  {
    var bad := Join("|", [a, b, c]);
    ThreeFieldLineSkipped(a, b, c);
    NoLineBreakJoin([a, b, c]);
    DataStringHasNoLineBreak(f);
    ReadLinesOfLine(bad, "");
    assert bad + "\n" + "" == bad + "\n";
    ReadLinesOfLine(ToDataString(f), bad + "\n");
    RoundTrip(f);
    var lines := [ToDataString(f), bad];
    assert lines[1..] == [bad];
    assert [bad][1..] == [];
    assert LoadLines([bad]) == LoadResult([], true);
  }

  // ----- the store -----

  class Library {
    /** The books, in list order. */
    var books: seq<Book>
    /** The content of `library_books.txt`; `None` when it is missing or cannot be read. */
    var file: Option<string>
    /** The id counter shared with every constructor of books. */
    const counter: IdCounter

    ghost predicate Valid()
      reads this, counter
    {
      counter.Valid()
    }

    /** The state before `load`: the field initialisers. */
    constructor Init(counter: IdCounter, file: Option<string>)
      requires counter.Valid()
      ensures Valid()
      ensures this.counter == counter && this.file == file && books == []
    {
      this.counter := counter;
      this.file := file;
      books := [];
    }

    /**
     * `new Library()`: the empty list, then `load`. `null` stands for the
     * `NumberFormatException` that escapes the constructor when a
     * five-part line has a bad id; the counter keeps the steps taken
     * before it.
     */
    static method Open(counter: IdCounter, file: Option<string>) returns (lib: Library?)
      requires counter.Valid()
      modifies counter
      ensures counter.Valid()
      ensures counter.next == FinalCounter(old(counter.next), ExplicitIds(LoadLines(FileLines(file)).records))
      ensures lib != null <==> LoadLines(FileLines(file)).complete
      ensures lib != null ==>
        fresh(lib) && lib.Valid() && lib.counter == counter && lib.file == file
        && Records(lib.books) == LoadLines(FileLines(file)).records
        && forall b :: b in lib.books ==> fresh(b)
    {
      lib := new Library.Init(counter, file);
      var ok := lib.Load();
      assert lib.books[0..] == lib.books;
      if !ok {
        lib := null;
      }
    }

    /** `addBook`: appends, then saves the whole list. */
    method AddBook(b: Book)
      requires Valid()
      modifies this`books, this`file
      ensures Valid()
      ensures books == old(books) + [b]
      ensures file == Some(Serialize(Records(books)))
    {
      books := books + [b];
      Save();
    }

    /** `removeBook`: removes the first occurrence of the object `b`, saving only when one was found. */
    method RemoveBook(b: Book) returns (removed: bool)
      requires Valid()
      modifies this`books, this`file
      ensures Valid()
      ensures removed <==> b in old(books)
      ensures books == RemoveFirst(old(books), b)
      ensures removed ==> file == Some(Serialize(Records(books)))
      ensures !removed ==> file == old(file)
    {
      var i := 0;
      while i < |books| && books[i] != b
        invariant 0 <= i <= |books|
        invariant b !in books[..i]
      {
        i := i + 1;
      }
      removed := i < |books|;
      RemoveFirstSpec(books, b);
      if removed {
        assert FirstIndex(books, b) == i;
        books := books[..i] + books[i + 1..];
        Save();
      } else {
        assert books[..i] == books;
      }
    }

    /** `search`: the matching books, in list order; the list itself is left alone. */
    method Search(query: string) returns (res: seq<Book>)
      ensures res == Matching(books, query)
    {
      res := [];
      var i := 0;
      while i < |books|
        invariant 0 <= i <= |books|
        invariant res == Matching(books[..i], query)
      {
        var b := books[i];
        MatchingAppend(books[..i], b, query);
        assert books[..i + 1] == books[..i] + [b];
        if Contains(Lower(b.name), Lower(query)) || Contains(Lower(b.genre), Lower(query)) {
          res := res + [b];
        }
        i := i + 1;
      }
      assert books[..i] == books;
    }

    /** `sortByAuthor`: stable sort by author; the file is not rewritten. */
    method SortByAuthor()
      requires Valid()
      modifies this`books
      ensures Valid()
      ensures books == SortBy(ByAuthor, old(books))
      ensures file == old(file)
    {
      books := SortBy(ByAuthor, books);
    }

    /** `sortByDate`: stable sort by the date string; the file is not rewritten. */
    method SortByDate()
      requires Valid()
      modifies this`books
      ensures Valid()
      ensures books == SortBy(ByDate, old(books))
      ensures file == old(file)
    {
      books := SortBy(ByDate, books);
    }

    /** `sortById`: stable sort by numeric id; the file is not rewritten. */
    method SortById()
      requires Valid()
      modifies this`books
      ensures Valid()
      ensures books == SortBy(ById, old(books))
      ensures file == old(file)
    {
      books := SortBy(ById, books);
    }

    /** One pass of `load`'s loop: `fromString`, then `add` when it built a book. */
    method LoadLine(line: string) returns (r: Parsed)
      requires Valid()
      modifies this`books, counter
      ensures Valid()
      ensures match ParseLine(line)
        case Skipped => r == NoBook && books == old(books) && counter.next == old(counter.next)
        case BadId(_) => r == NumberFormatError && books == old(books) && counter.next == old(counter.next)
        case Record(f) =>
          r.Made? && fresh(r.book) && FieldsOf(r.book) == f && books == old(books) + [r.book]
          && counter.next == AfterExplicit(old(counter.next), f.id)
    {
      r := Book.FromString(counter, line);
      if r.Made? {
        books := books + [r.book];
      }
    }

    /**
     * `load`: every line of the file through `fromString`, appending the
     * books it builds; stops with `false` where `parseInt` throws.
     */
    method Load() returns (ok: bool)
      requires Valid()
      modifies this`books, counter
      ensures Valid()
      ensures ok == LoadLines(FileLines(file)).complete
      ensures Records(books) == Records(old(books)) + LoadLines(FileLines(file)).records
      ensures |old(books)| <= |books| && books[..|old(books)|] == old(books)
      ensures forall b :: b in books[|old(books)|..] ==> fresh(b)
      ensures counter.next == FinalCounter(old(counter.next), ExplicitIds(LoadLines(FileLines(file)).records))
    {
      var lines := FileLines(file);
      ghost var start := books;
      ghost var c0 := counter.next;
      ghost var loaded: seq<Fields> := [];
      ghost var made: seq<Book> := [];
      var i := 0;
      while i < |lines|
        invariant 0 <= i <= |lines|
        invariant counter.Valid()
        invariant Records(books) == Records(start) + loaded
        invariant books == start + made
        invariant forall b :: b in made ==> fresh(b)
        invariant counter.next == FinalCounter(c0, ExplicitIds(loaded))
        invariant LoadLines(lines) == Prepend(loaded, LoadLines(lines[i..]))
      {
        ghost var bs := books;
        ghost var c := counter.next;
        var r := LoadLine(lines[i]);
        if r.NumberFormatError? {
          LoadLinesAt(lines, i);
          assert loaded + [] == loaded;
          return false;
        } else if r.Made? {
          LoadStep(start, bs, loaded, r.book, lines, i, c0, c);
          loaded := loaded + [FieldsOf(r.book)];
          made := made + [r.book];
        } else {
          LoadLinesAt(lines, i);
        }
        i := i + 1;
      }
      assert books[|start|..] == made;
      assert lines[i..] == [];
      assert loaded + [] == loaded;
      ok := true;
    }

    /** `save`: rewrites the whole file from the list. */
    method Save()
      requires Valid()
      modifies this`file
      ensures Valid()
      ensures file == Some(Serialize(Records(books)))
    {
      var out := "";
      var i := 0;
      while i < |books|
        invariant 0 <= i <= |books|
        invariant out == Serialize(Records(books[..i]))
      {
        SerializeAppend(Records(books[..i]), FieldsOf(books[i]));
        assert Records(books[..i + 1]) == Records(books[..i]) + [FieldsOf(books[i])];
        out := out + ToDataString(FieldsOf(books[i])) + "\n";
        i := i + 1;
      }
      assert books[..i] == books;
      file := Some(out);
    }
  }
}
