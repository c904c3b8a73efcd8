/**
 * Movie records: the three genre variants of the catalog, their stock
 * counters, the empty sentinel that marks an unused tree slot, the sorting
 * key strings, and the per-genre comparison operators.
 */
module Movies {
  import opened Strings
  import opened Outcomes

  datatype Genre = ComedyGenre | DramaGenre | ClassicsGenre

  /**
   * One catalog record. The three constructors correspond to the Comedy,
   * Drama and Classics subclasses; `stock` is the number of copies on the
   * shelf and `startingStock` the number the store owns.
   */
  datatype Movie =
    | Comedy(director: string, title: string, year: int, stock: int, startingStock: int)
    | Drama(director: string, title: string, year: int, stock: int, startingStock: int)
    | Classics(director: string, title: string, year: int, stock: int, startingStock: int,
               month: int, actor: string)

  function GenreOf(m: Movie): Genre {
    match m
    case Comedy(_, _, _, _, _) => ComedyGenre
    case Drama(_, _, _, _, _) => DramaGenre
    case Classics(_, _, _, _, _, _, _) => ClassicsGenre
  }

  /** Release month and lead actor; records of the other genres have none, read as 0 and "". */
  function MonthOf(m: Movie): int {
    if m.Classics? then m.month else 0
  }

  function ActorOf(m: Movie): string {
    if m.Classics? then m.actor else ""
  }

  // ---------------------------------------------------------------- emptiness

  /** `Movie::isEmpty`: the base-class test, which ignores the Classics-only fields. */
  predicate BaseEmpty(m: Movie) {
    m.director == "" && m.title == "" && m.year == 0 && m.stock == 0
  }

  /** The `isEmpty` of the record's own genre; Classics also needs month 0 and no actor. */
  predicate IsEmpty(m: Movie) {
    BaseEmpty(m) && (m.Classics? ==> m.month == 0 && m.actor == "")
  }

  /** A record whose identifying fields are all blank: it reads as empty once its stock is 0. */
  predicate Blank(m: Movie) {
    IsEmpty(m.(stock := 0))
  }

  /** What the catalog loader produces: a non-blank record whose stock lies within its bounds. */
  predicate WellFormed(m: Movie) {
    !Blank(m) && 0 <= m.stock <= m.startingStock
  }

  /** The default-constructed record of a genre, used for unoccupied slots. */
  function Empty(g: Genre): (m: Movie)
    ensures GenreOf(m) == g && IsEmpty(m)
    ensures m.stock == 0 && m.startingStock == 0
  {
    match g
    case ComedyGenre => Comedy("", "", 0, 0, 0)
    case DramaGenre => Drama("", "", 0, 0, 0)
    case ClassicsGenre => Classics("", "", 0, 0, 0, 0, "")
  }

  // ------------------------------------------------------------- constructors

  /** `Comedy(year, title, director, stock)`: every copy starts on the shelf. */
  function NewComedy(year: int, title: string, director: string, stock: int): (m: Movie)
    ensures m.Comedy? && m.stock == m.startingStock == stock
    ensures m.title == title && m.year == year && m.director == director
  {
    Comedy(director, title, year, stock, stock)
  }

  /** `Drama(director, title, year, stock)`. */
  function NewDrama(director: string, title: string, year: int, stock: int): (m: Movie)
    ensures m.Drama? && m.stock == m.startingStock == stock
    ensures m.title == title && m.year == year && m.director == director
  {
    Drama(director, title, year, stock, stock)
  }

  /** `Classics(year, month, actor, director, title, stock)`. */
  function NewClassics(year: int, month: int, actor: string, director: string, title: string,
                       stock: int): (m: Movie)
    ensures m.Classics? && m.stock == m.startingStock == stock
    ensures m.year == year && m.month == month && m.actor == actor
    ensures m.director == director && m.title == title
  {
    Classics(director, title, year, stock, stock, month, actor)
  }

  /** A freshly constructed record with stock and a title is well formed. */
  lemma ConstructedIsWellFormed(m: Movie)
    requires m.stock == m.startingStock >= 0 && m.title != ""
    ensures WellFormed(m)
  {
  }

  // -------------------------------------------------------------------- stock

  /** `incrementStock`: put back one copy, never above the number owned. */
  function IncrementStock(m: Movie): (r: Attempt<Movie>)
    ensures r.ok <==> m.stock < m.startingStock
    ensures r.ok ==> r.state == m.(stock := m.stock + 1)
    ensures !r.ok ==> r.state == m
    ensures 0 <= m.stock <= m.startingStock ==> 0 <= r.state.stock <= r.state.startingStock
  {
    if m.stock < m.startingStock then Attempt(true, m.(stock := m.stock + 1)) else Attempt(false, m)
  }

  /** `decrementStock`: take one copy off the shelf, never below zero. */
  function DecrementStock(m: Movie): (r: Attempt<Movie>)
    ensures r.ok <==> m.stock > 0
    ensures r.ok ==> r.state == m.(stock := m.stock - 1)
    ensures !r.ok ==> r.state == m
    ensures 0 <= m.stock <= m.startingStock ==> 0 <= r.state.stock <= r.state.startingStock
  {
    if m.stock > 0 then Attempt(true, m.(stock := m.stock - 1)) else Attempt(false, m)
  }

  /** Taking a copy and putting it back restores the record, and vice versa. */
  lemma StockRoundTrip(m: Movie)
    requires 0 <= m.stock <= m.startingStock
    ensures DecrementStock(m).ok ==> IncrementStock(DecrementStock(m).state) == Attempt(true, m)
    ensures IncrementStock(m).ok ==> DecrementStock(IncrementStock(m).state) == Attempt(true, m)
  {
  }

  /** A well-formed record never reads as the empty sentinel. */
  lemma WellFormedIsNotEmpty(m: Movie)
    requires WellFormed(m)
    ensures !IsEmpty(m)
  {
    assert m.stock == 0 ==> m.(stock := 0) == m;
  }

  /** Changing a record's stock leaves its genre, its blankness and every comparison alone. */
  lemma RestockKeepsKey(m: Movie, m2: Movie)
    requires m2 == m.(stock := m2.stock)
    ensures GenreOf(m2) == GenreOf(m) && Blank(m2) == Blank(m) && m2.startingStock == m.startingStock
    ensures forall x :: Before(m2, x) == Before(m, x) && Before(x, m2) == Before(x, m)
    ensures forall x :: Eq(m2, x) == Eq(m, x) && Gt(m2, x) == Gt(m, x) && SameKey(m2, x) == SameKey(m, x)
  {
    assert m2.(stock := 0) == m.(stock := 0);
  }

  // ------------------------------------------------------------- sorting keys

  /** `Classics::getReleaseDate`: "month year". */
  function ReleaseDate(m: Movie): string {
    IntToString(MonthOf(m)) + " " + IntToString(m.year)
  }

  /**
   * `getSortingCriteria`: "title, year" for a comedy, "director, title," for a
   * drama, "month year actor" for a classic. The holdings ledger matches
   * returned records against borrowed ones by this string.
   */
  function SortingCriteria(m: Movie): string {
    match m
    case Comedy(_, _, _, _, _) => m.title + ", " + IntToString(m.year)
    case Drama(_, _, _, _, _) => m.director + ", " + m.title + ","
    case Classics(_, _, _, _, _, _, _) => ReleaseDate(m) + " " + m.actor
  }

  // -------------------------------------------------------------- comparisons

  /** `operator==` of the receiver's genre. */
  predicate Eq(a: Movie, b: Movie) {
    match a
    case Comedy(_, _, _, _, _) => a.title == b.title && a.year == b.year
    case Drama(_, _, _, _, _) => a.director == b.director && a.title == b.title
    case Classics(_, _, _, _, _, _, _) => ReleaseDate(a) == ReleaseDate(b) && a.actor == ActorOf(b)
  }

  /** `operator>` of the receiver's genre. */
  predicate Gt(a: Movie, b: Movie) {
    match a
    case Comedy(_, _, _, _, _) =>
      if a.title == b.title then a.year > b.year else StrLess(b.title, a.title)
    case Drama(_, _, _, _, _) =>
      if a.director == b.director then StrLess(b.title, a.title) else StrLess(b.director, a.director)
    case Classics(_, _, _, _, _, _, _) =>
      if ReleaseDate(a) == ReleaseDate(b) then StrLess(ActorOf(b), a.actor)
      else if a.year == b.year then a.month > MonthOf(b)
      else a.year > b.year
  }

  /** `operator<` of the receiver's genre; for Classics it is "neither greater nor equal". */
  predicate Lt(a: Movie, b: Movie) {
    match a
    case Comedy(_, _, _, _, _) =>
      if a.title == b.title then a.year < b.year else StrLess(a.title, b.title)
    case Drama(_, _, _, _, _) =>
      if a.director == b.director then StrLess(a.title, b.title) else StrLess(a.director, b.director)
    case Classics(_, _, _, _, _, _, _) => !Gt(a, b) && !Eq(a, b)
  }

  /**
   * The order the catalog is meant to keep, written as a plain lexicographic
   * order on each genre's key fields: (title, year) for comedies, (director,
   * title) for dramas, (year, month, actor) for classics. Records of
   * different genres are unrelated.
   */
  predicate Before(a: Movie, b: Movie) {
    match a
    case Comedy(_, _, _, _, _) =>
      b.Comedy? && (StrLess(a.title, b.title) || (a.title == b.title && a.year < b.year))
    case Drama(_, _, _, _, _) =>
      b.Drama? && (StrLess(a.director, b.director) || (a.director == b.director && StrLess(a.title, b.title)))
    case Classics(_, _, _, _, _, _, _) =>
      b.Classics? &&
      (a.year < b.year ||
       (a.year == b.year && (a.month < b.month || (a.month == b.month && StrLess(a.actor, b.actor)))))
  }

  /** Same genre and same key fields: the records are the same catalog entry. */
  predicate SameKey(a: Movie, b: Movie) {
    match a
    case Comedy(_, _, _, _, _) => b.Comedy? && a.title == b.title && a.year == b.year
    case Drama(_, _, _, _, _) => b.Drama? && a.director == b.director && a.title == b.title
    case Classics(_, _, _, _, _, _, _) =>
      b.Classics? && a.year == b.year && a.month == b.month && a.actor == b.actor
  }

  /** Equal release-date strings mean equal month and year. */
  lemma ReleaseDateInjective(a: Movie, b: Movie)
    requires ReleaseDate(a) == ReleaseDate(b)
    ensures MonthOf(a) == MonthOf(b) && a.year == b.year
  {
    IntToStringHasNoSeparator(MonthOf(a));
    IntToStringHasNoSeparator(MonthOf(b));
    SplitAtFirst(IntToString(MonthOf(a)), IntToString(a.year),
                 IntToString(MonthOf(b)), IntToString(b.year), ' ');
    IntToStringInjective(MonthOf(a), MonthOf(b));
    IntToStringInjective(a.year, b.year);
  }

  /**
   * The source's three operators agree with the lexicographic reference order:
   * `==` is "same key", `>` is the reference order reversed and `<` is the
   * reference order, for every pair of records of one genre.
   */
  lemma ComparatorsMatchOrder(a: Movie, b: Movie)
    requires GenreOf(a) == GenreOf(b)
    ensures Eq(a, b) <==> SameKey(a, b)
    ensures Gt(a, b) <==> Before(b, a)
    ensures Lt(a, b) <==> Before(a, b)
  {
    match a
    case Comedy(_, _, _, _, _) =>
      StrLessIrreflexive(a.title);
      StrLessTotal(a.title, b.title);
      if StrLess(a.title, b.title) { StrLessAsymmetric(a.title, b.title); }
    case Drama(_, _, _, _, _) =>
      if a.director != b.director {
        StrLessTotal(a.director, b.director);
        if StrLess(a.director, b.director) { StrLessAsymmetric(a.director, b.director); }
      } else {
        StrLessIrreflexive(a.director);
        StrLessIrreflexive(a.title);
        StrLessTotal(a.title, b.title);
        if StrLess(a.title, b.title) { StrLessAsymmetric(a.title, b.title); }
      }
    case Classics(_, _, _, _, _, _, _) =>
      if ReleaseDate(a) == ReleaseDate(b) {
        ReleaseDateInjective(a, b);
        if a.actor != b.actor {
          StrLessTotal(a.actor, b.actor);
          if StrLess(a.actor, b.actor) { StrLessAsymmetric(a.actor, b.actor); }
        } else {
          StrLessIrreflexive(a.actor);
        }
      }
  }

  /** Exactly one of `==`, `<` and `>` holds between two records of one genre. */
  lemma Trichotomy(a: Movie, b: Movie)
    requires GenreOf(a) == GenreOf(b)
    ensures Eq(a, b) || Lt(a, b) || Gt(a, b)
    ensures !(Eq(a, b) && Lt(a, b)) && !(Eq(a, b) && Gt(a, b)) && !(Lt(a, b) && Gt(a, b))
  {
    ComparatorsMatchOrder(a, b);
    BeforeTotal(a, b);
    if Before(a, b) { BeforeAsymmetric(a, b); }
    if SameKey(a, b) && (Before(a, b) || Before(b, a)) { BeforeIrreflexive(a); }
  }

  /** Each genre's operators are mutually consistent: `a > b` exactly when `b < a`. */
  lemma GreaterIsConverseOfLess(a: Movie, b: Movie)
    requires GenreOf(a) == GenreOf(b)
    ensures Gt(a, b) <==> Lt(b, a)
    ensures Eq(a, b) <==> Eq(b, a)
  {
    ComparatorsMatchOrder(a, b);
    ComparatorsMatchOrder(b, a);
  }

  lemma BeforeIrreflexive(a: Movie)
    ensures !Before(a, a)
  {
    match a
    case Comedy(_, _, _, _, _) => StrLessIrreflexive(a.title);
    case Drama(_, _, _, _, _) => StrLessIrreflexive(a.director); StrLessIrreflexive(a.title);
    case Classics(_, _, _, _, _, _, _) => StrLessIrreflexive(a.actor);
  }

  lemma BeforeTransitive(a: Movie, b: Movie, c: Movie)
    requires Before(a, b) && Before(b, c)
    ensures Before(a, c)
  {
    match a
    case Comedy(_, _, _, _, _) =>
      if StrLess(a.title, b.title) && StrLess(b.title, c.title) {
        StrLessTransitive(a.title, b.title, c.title);
      }
    case Drama(_, _, _, _, _) =>
      if StrLess(a.director, b.director) && StrLess(b.director, c.director) {
        StrLessTransitive(a.director, b.director, c.director);
      }
      StrLessIrreflexive(a.director);
      StrLessIrreflexive(b.director);
      if a.director == b.director == c.director {
        StrLessTransitive(a.title, b.title, c.title);
      }
    case Classics(_, _, _, _, _, _, _) =>
      if a.year == b.year == c.year && a.month == b.month == c.month {
        StrLessTransitive(a.actor, b.actor, c.actor);
      }
  }

  lemma BeforeAsymmetric(a: Movie, b: Movie)
    requires Before(a, b)
    ensures !Before(b, a) && !SameKey(a, b)
  {
    if Before(b, a) {
      BeforeTransitive(a, b, a);
      BeforeIrreflexive(a);
    }
    if SameKey(a, b) {
      BeforeIrreflexive(a);
    }
  }

  /** Records of one genre are either the same entry or ordered one way or the other. */
  lemma BeforeTotal(a: Movie, b: Movie)
    requires GenreOf(a) == GenreOf(b)
    ensures SameKey(a, b) || Before(a, b) || Before(b, a)
  {
    match a
    case Comedy(_, _, _, _, _) => StrLessTotal(a.title, b.title);
    case Drama(_, _, _, _, _) => StrLessTotal(a.director, b.director); StrLessTotal(a.title, b.title);
    case Classics(_, _, _, _, _, _, _) => StrLessTotal(a.actor, b.actor);
  }

  /** The reference order only looks at key fields, so same-key records are interchangeable in it. */
  lemma SameKeyCompatible(a: Movie, b: Movie, c: Movie)
    requires SameKey(a, b)
    ensures Before(a, c) <==> Before(b, c)
    ensures Before(c, a) <==> Before(c, b)
  {
  }

  // ------------------------------------------------------- key string shapes

  /** Records that compare equal have equal sorting keys. */
  lemma EqualRecordsShareKey(a: Movie, b: Movie)
    requires GenreOf(a) == GenreOf(b) && Eq(a, b)
    ensures SortingCriteria(a) == SortingCriteria(b)
  {
  }

  /** A comedy's key "title, year" determines its title and year. */
  lemma ComedyKeyDeterminesRecord(a: Movie, b: Movie)
    requires a.Comedy? && b.Comedy?
    requires SortingCriteria(a) == SortingCriteria(b)
    ensures Eq(a, b)
  {
    IntToStringHasNoSeparator(a.year);
    IntToStringHasNoSeparator(b.year);
    assert SortingCriteria(a) == a.title + [','] + (" " + IntToString(a.year));
    assert SortingCriteria(b) == b.title + [','] + (" " + IntToString(b.year));
    SplitAtLast(a.title, " " + IntToString(a.year), b.title, " " + IntToString(b.year), ',');
    assert IntToString(a.year) == (" " + IntToString(a.year))[1..];
    assert IntToString(b.year) == (" " + IntToString(b.year))[1..];
    IntToStringInjective(a.year, b.year);
  }

  /** A classic's key "month year actor" determines its release date and actor. */
  lemma ClassicsKeyDeterminesRecord(a: Movie, b: Movie)
    requires a.Classics? && b.Classics?
    requires SortingCriteria(a) == SortingCriteria(b)
    ensures Eq(a, b)
  {
    var ma, ya := IntToString(a.month), IntToString(a.year);
    var mb, yb := IntToString(b.month), IntToString(b.year);
    IntToStringHasNoSeparator(a.month);
    IntToStringHasNoSeparator(b.month);
    IntToStringHasNoSeparator(a.year);
    IntToStringHasNoSeparator(b.year);
    assert SortingCriteria(a) == ma + [' '] + (ya + [' '] + a.actor);
    assert SortingCriteria(b) == mb + [' '] + (yb + [' '] + b.actor);
    SplitAtFirst(ma, ya + [' '] + a.actor, mb, yb + [' '] + b.actor, ' ');
    SplitAtFirst(ya, a.actor, yb, b.actor, ' ');
  }

  /** A drama's key "director, title," determines the record when directors contain no comma. */
  lemma DramaKeyDeterminesRecord(a: Movie, b: Movie)
    requires a.Drama? && b.Drama?
    requires ',' !in a.director && ',' !in b.director
    requires SortingCriteria(a) == SortingCriteria(b)
    ensures Eq(a, b)
  {
    assert SortingCriteria(a) == a.director + [','] + (" " + a.title + ",");
    assert SortingCriteria(b) == b.director + [','] + (" " + b.title + ",");
    SplitAtFirst(a.director, " " + a.title + ",", b.director, " " + b.title + ",", ',');
    assert a.title == (" " + a.title + ",")[1..|a.title| + 1];
    assert b.title == (" " + b.title + ",")[1..|b.title| + 1];
  }

  /** Without that restriction two different dramas can share a key. */
  lemma DramaKeyAmbiguous()
    ensures var a := NewDrama("A, B", "C", 0, 1);
            var b := NewDrama("A", "B, C", 0, 1);
            SortingCriteria(a) == SortingCriteria(b) && !Eq(a, b)
  {
    assert SortingCriteria(NewDrama("A, B", "C", 0, 1)) == "A, B, C,";
    assert SortingCriteria(NewDrama("A", "B, C", 0, 1)) == "A, B, C,";
  }
}
