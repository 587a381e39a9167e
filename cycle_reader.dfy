/**
 * The reading-schedule calculator (`cycle_reader.py`): every book of a library is
 * read a fixed number of chapters a day, one book after the other, and the
 * library is started again once its last book is finished. Dates are whole day
 * numbers and the library is a parameter.
 */
module CycleReader {
  import opened Wrappers

  /** `Book(id, name, chapters_count, chapters_per_day)`. */
  datatype Book = Book(id: string, name: string, chaptersCount: nat, chaptersPerDay: nat)

  /** What `read_today` returns: the book's name and the chapters of the day. */
  datatype Reading = Reading(name: string, chapters: seq<nat>)

  /** The one exception `read_today` can end in. */
  datatype ScheduleError = ZeroDivision

  // ---------------------------------------------------------------------------
  // one book
  // ---------------------------------------------------------------------------

  /** `reading_days(book)`: whole days of reading, the last one possibly short. */
  function ReadingDays(b: Book): (days: nat)
    requires b.chaptersPerDay > 0
    ensures days * b.chaptersPerDay >= b.chaptersCount
    ensures days == 0 || (days - 1) * b.chaptersPerDay < b.chaptersCount
  {
    var q := b.chaptersCount / b.chaptersPerDay;
    var r := b.chaptersCount % b.chaptersPerDay;
    q + (if r != 0 then 1 else 0)
  }

  /** The ceiling division is the only number of days that fits the chapters. */
  lemma ReadingDaysUnique(b: Book, days: nat)
    requires b.chaptersPerDay > 0
    requires days * b.chaptersPerDay >= b.chaptersCount
    requires days == 0 || (days - 1) * b.chaptersPerDay < b.chaptersCount
    ensures days == ReadingDays(b)
  {
    var d := ReadingDays(b);
    var c := b.chaptersPerDay;
    if days < d {
      MulMono(days, d - 1, c);
    } else if days > d {
      MulMono(d, days - 1, c);
    }
  }

  lemma MulMono(a: nat, b: nat, c: nat)
    requires a <= b
    ensures a * c <= b * c
  {
  }

  /** `list(range(1, n + 1))`. */
  function Chapters(n: nat): (cs: seq<nat>)
    ensures |cs| == n && forall i :: 0 <= i < n ==> cs[i] == i + 1
  {
    seq(n, i requires 0 <= i => i + 1)
  }

  /** `s[lo:hi]` for non-negative bounds: both ends are cut down to the length. */
  function Slice<T>(s: seq<T>, lo: nat, hi: nat): (t: seq<T>)
    ensures lo <= hi <= |s| ==> t == s[lo..hi]
    ensures lo < |s| <= hi ==> t == s[lo..]
    ensures |s| <= lo || hi <= lo ==> t == []
  {
    var a := if lo < |s| then lo else |s|;
    var b := if hi < |s| then hi else |s|;
    if b <= a then [] else s[a..b]
  }

  /** Day `day` of `b`: `chapters[per_day * day : per_day * (day + 1)]`. */
  function Block(b: Book, day: nat): seq<nat>
    requires b.chaptersPerDay > 0
  {
    Slice(Chapters(b.chaptersCount), b.chaptersPerDay * day, b.chaptersPerDay * (day + 1))
  }

  /** `chapter_blocks(book)`: the chapters `1..chapters_count` cut into days. */
  function ChapterBlocks(b: Book): (blocks: seq<seq<nat>>)
    requires b.chaptersPerDay > 0
    ensures |blocks| == ReadingDays(b)
  {
    var days := ReadingDays(b);
    seq(days, day requires 0 <= day < days => Block(b, day))
  }

  /** How many chapters the first `k` days cover. */
  function Covered(b: Book, k: nat): nat
    requires b.chaptersPerDay > 0
  {
    if b.chaptersPerDay * k < b.chaptersCount then b.chaptersPerDay * k else b.chaptersCount
  }

  /** Day `day` reads the chapters after those of the days before it, at least one
      and at most `chapters_per_day` of them, and exactly that many unless it is the
      last day. */
  lemma BlockShape(b: Book, day: nat)
    requires b.chaptersPerDay > 0 && day < ReadingDays(b)
    ensures Covered(b, day) == b.chaptersPerDay * day
    ensures Covered(b, day) < Covered(b, day + 1) <= Covered(b, day) + b.chaptersPerDay
    ensures day < ReadingDays(b) - 1 ==> Covered(b, day + 1) == Covered(b, day) + b.chaptersPerDay
    ensures Block(b, day) == Chapters(b.chaptersCount)[Covered(b, day)..Covered(b, day + 1)]
  {
    var c := b.chaptersPerDay;
    var lo := c * day;
    var hi := c * (day + 1);
    assert hi == lo + c;
    BlockBounds(b, day);
  }

  /** Day `day` starts inside the book, and every day but the last ends inside it. */
  lemma BlockBounds(b: Book, day: nat)
    requires b.chaptersPerDay > 0 && day < ReadingDays(b)
    ensures b.chaptersPerDay * day < b.chaptersCount
    ensures day < ReadingDays(b) - 1 ==> b.chaptersPerDay * (day + 1) <= b.chaptersCount
  {
    var c := b.chaptersPerDay;
    var d := ReadingDays(b);
    MulMono(day, d - 1, c);
    if day < d - 1 {
      MulMono(day + 1, d - 1, c);
    }
  }

  /** Every block is non-empty and holds at most `chapters_per_day` chapters, and
      every block but the last holds exactly that many. */
  lemma BlockSizes(b: Book)
    requires b.chaptersPerDay > 0
    ensures forall day :: 0 <= day < |ChapterBlocks(b)| ==> 0 < |ChapterBlocks(b)[day]| <= b.chaptersPerDay
    ensures forall day :: 0 <= day < |ChapterBlocks(b)| - 1 ==> |ChapterBlocks(b)[day]| == b.chaptersPerDay
  {
    var blocks := ChapterBlocks(b);
    forall day | 0 <= day < |blocks|
      ensures 0 < |blocks[day]| <= b.chaptersPerDay
      ensures day < |blocks| - 1 ==> |blocks[day]| == b.chaptersPerDay
    {
      BlockShape(b, day);
    }
  }

  /** The blocks concatenated. */
  function Flatten<T>(blocks: seq<seq<T>>): seq<T>
  {
    if |blocks| == 0 then [] else Flatten(blocks[..|blocks| - 1]) + blocks[|blocks| - 1]
  }

  lemma TakeConcat<T>(s: seq<T>, lo: nat, hi: nat)
    requires lo <= hi <= |s|
    ensures s[..lo] + s[lo..hi] == s[..hi]
  {
  }

  /** The first `k` blocks hold the first `k * chapters_per_day` chapters (or all). */
  lemma {:induction false} FlattenPrefix(b: Book, k: nat)
    requires b.chaptersPerDay > 0 && k <= ReadingDays(b)
    ensures Flatten(ChapterBlocks(b)[..k]) == Chapters(b.chaptersCount)[..Covered(b, k)]
  {
    var blocks := ChapterBlocks(b);
    var chapters := Chapters(b.chaptersCount);
    if k == 0 {
      assert Covered(b, 0) == 0;
    } else {
      FlattenPrefix(b, k - 1);
      assert blocks[..k][..k - 1] == blocks[..k - 1];
      assert blocks[..k][k - 1] == blocks[k - 1] == Block(b, k - 1);
      BlockShape(b, k - 1);
      TakeConcat(chapters, Covered(b, k - 1), Covered(b, k));
    }
  }

  /** The blocks are the chapters `1..chapters_count`, in order, each exactly once. */
  lemma BlocksCoverBook(b: Book)
    requires b.chaptersPerDay > 0
    ensures Flatten(ChapterBlocks(b)) == Chapters(b.chaptersCount)
  {
    var blocks := ChapterBlocks(b);
    FlattenPrefix(b, |blocks|);
    assert blocks[..|blocks|] == blocks;
  }

  // ---------------------------------------------------------------------------
  // the library
  // ---------------------------------------------------------------------------

  /** Every book can be divided into days: `reading_days` does not divide by zero. */
  predicate Readable(lib: seq<Book>)
  {
    forall k :: 0 <= k < |lib| ==> lib[k].chaptersPerDay > 0
  }

  /** The days it takes to read the first `i` books. */
  function DaysBefore(lib: seq<Book>, i: nat): nat
    requires Readable(lib) && i <= |lib|
  {
    if i == 0 then 0 else DaysBefore(lib, i - 1) + ReadingDays(lib[i - 1])
  }

  /** `sum(map(reading_days, lib))`. */
  function LibDays(lib: seq<Book>): nat
    requires Readable(lib)
  {
    DaysBefore(lib, |lib|)
  }

  lemma {:induction false} DaysBeforeMono(lib: seq<Book>, i: nat, j: nat)
    requires Readable(lib) && i <= j <= |lib|
    ensures DaysBefore(lib, i) <= DaysBefore(lib, j)
    decreases j - i
  {
    if i < j {
      DaysBeforeMono(lib, i, j - 1);
    }
  }

  /** `reading_day - (reading_day // lib_days) * lib_days`, with Python's floor division. */
  function LibPosition(readingDay: int, libDays: nat): (pos: int)
    requires libDays > 0
    ensures 0 <= pos < libDays
  {
    readingDay - FloorDiv(readingDay, libDays) * libDays
  }

  /** Python's `a // n` for a positive `n`: the quotient rounded down. */
  function FloorDiv(a: int, n: nat): (q: int)
    requires n > 0
    ensures q * n <= a < q * n + n
  {
    a / n
  }

  /** A remainder pins its quotient down. */
  lemma FloorDivUnique(a: int, n: nat, q: int)
    requires n > 0 && q * n <= a < q * n + n
    ensures FloorDiv(a, n) == q
  {
    var p := FloorDiv(a, n);
    assert (p - q) * n == p * n - q * n;
    MultipleOutside(p - q, n);
  }

  /** A non-zero multiple of `n` is at least `n` away from zero. */
  lemma MultipleOutside(k: int, n: nat)
    ensures k >= 1 ==> k * n >= n
    ensures k <= -1 ==> k * n + n <= 0
  {
    if k >= 1 {
      assert k * n == n + (k - 1) * n;
    } else if k <= -1 {
      assert k * n + n == (k + 1) * n;
      assert (k + 1) * n + (-k - 1) * n == 0;
    }
  }

  /** Moving a whole library's worth of days does not move the position. */
  lemma PositionPeriodic(readingDay: int, libDays: nat)
    requires libDays > 0
    ensures LibPosition(readingDay + libDays, libDays) == LibPosition(readingDay, libDays)
  {
    var q := FloorDiv(readingDay, libDays);
    assert (q + 1) * libDays == q * libDays + libDays;
    FloorDivUnique(readingDay + libDays, libDays, q + 1);
  }

  /** The book the position falls in and the day within it. */
  datatype Place = Place(index: nat, offset: nat)

  /** The book whose days cover position `pos`, scanning from book `i` on. */
  function LocateFrom(lib: seq<Book>, pos: nat, i: nat): (p: Place)
    requires Readable(lib) && i < |lib| && DaysBefore(lib, i) <= pos < LibDays(lib)
    decreases |lib| - i
    ensures i <= p.index < |lib|
    ensures DaysBefore(lib, p.index) <= pos < DaysBefore(lib, p.index) + ReadingDays(lib[p.index])
    ensures p.offset == pos - DaysBefore(lib, p.index) && p.offset < ReadingDays(lib[p.index])
  {
    if pos < DaysBefore(lib, i + 1) then Place(i, pos - DaysBefore(lib, i))
    else LocateFrom(lib, pos, i + 1)
  }

  /** `read_today(today, started, skipped)` over the library `lib`. */
  function ReadTodaySpec(lib: seq<Book>, today: int, started: int, skipped: int): (r: Result<Reading, ScheduleError>)
    ensures r.Err? <==> !Readable(lib) || LibDays(lib) == 0
  {
    if !Readable(lib) || LibDays(lib) == 0 then Err(ZeroDivision)
    else
      var libDays := LibDays(lib);
      var readingDay := (today - started) + libDays - skipped;
      var p := LocateFrom(lib, LibPosition(readingDay, libDays), 0);
      Ok(Reading(lib[p.index].name, ChapterBlocks(lib[p.index])[p.offset]))
  }

  /** The reading is one block of one book of the library. */
  lemma ReadingIsABlock(lib: seq<Book>, today: int, started: int, skipped: int)
    requires ReadTodaySpec(lib, today, started, skipped).Ok?
    ensures var r := ReadTodaySpec(lib, today, started, skipped).value;
      exists k, day :: 0 <= k < |lib| && 0 <= day < ReadingDays(lib[k]) &&
        r == Reading(lib[k].name, ChapterBlocks(lib[k])[day])
  {
    var libDays := LibDays(lib);
    var readingDay := (today - started) + libDays - skipped;
    var p := LocateFrom(lib, LibPosition(readingDay, libDays), 0);
    assert 0 <= p.index < |lib| && 0 <= p.offset < ReadingDays(lib[p.index]);
  }

  /** Shifting `today` by the library's length in days gives the same reading. */
  lemma Periodic(lib: seq<Book>, today: int, started: int, skipped: int)
    requires Readable(lib)
    ensures ReadTodaySpec(lib, today + LibDays(lib), started, skipped) == ReadTodaySpec(lib, today, started, skipped)
  {
    if LibDays(lib) > 0 {
      var readingDay := (today - started) + LibDays(lib) - skipped;
      PositionPeriodic(readingDay, LibDays(lib));
      assert (today + LibDays(lib) - started) + LibDays(lib) - skipped == readingDay + LibDays(lib);
    }
  }

  /** One more skipped day reads what the day before would have read. */
  lemma SkipShift(lib: seq<Book>, today: int, started: int, skipped: int)
    ensures ReadTodaySpec(lib, today, started, skipped + 1) == ReadTodaySpec(lib, today - 1, started, skipped)
  {
    if Readable(lib) && LibDays(lib) > 0 {
      assert (today - started) + LibDays(lib) - (skipped + 1) == (today - 1 - started) + LibDays(lib) - skipped;
    }
  }

  /** Python's `s[k]` for `-|s| <= k < |s|`: a negative index counts from the end. */
  function PyIndex<T>(s: seq<T>, k: int): (x: T)
    requires -|s| <= k < |s|
    ensures k < 0 ==> x == s[|s| + k]
    ensures 0 <= k ==> x == s[k]
  {
    if k < 0 then s[|s| + k] else s[k]
  }

  /** `read_today`: walks the cycled library, taking each book's days off the
      position until it goes negative, then indexes that book's blocks from the end. */
  method ReadToday(lib: seq<Book>, today: int, started: int, skipped: int) returns (r: Result<Reading, ScheduleError>)
    ensures r == ReadTodaySpec(lib, today, started, skipped)
  {
    if !Readable(lib) {
      return Err(ZeroDivision);
    }
    var libDays := LibDays(lib);
    if libDays == 0 {
      return Err(ZeroDivision);
    }
    var readingDay := (today - started) + libDays - skipped;
    var libPosition := LibPosition(readingDay, libDays);
    ghost var start := libPosition;
    var i := 0;
    while i < |lib|
      invariant 0 <= i <= |lib|
      invariant libPosition == start - DaysBefore(lib, i) && libPosition >= 0
    {
      var book := lib[i];
      var bookReadingDays := ReadingDays(book);
      libPosition := libPosition - bookReadingDays;
      if libPosition < 0 {
        var chaptersPerDays := ChapterBlocks(book);
        ReadTodayAt(lib, today, started, skipped, i);
        return Ok(Reading(book.name, PyIndex(chaptersPerDays, libPosition)));
      }
      i := i + 1;
    }
    assert false;
  }

  /** When today's position falls in book `i`, the reading is the block of book `i`
      the position is at. */
  lemma ReadTodayAt(lib: seq<Book>, today: int, started: int, skipped: int, i: nat)
    requires Readable(lib) && LibDays(lib) > 0 && i < |lib|
    requires var pos := LibPosition((today - started) + LibDays(lib) - skipped, LibDays(lib));
      DaysBefore(lib, i) <= pos < DaysBefore(lib, i + 1)
    ensures var pos := LibPosition((today - started) + LibDays(lib) - skipped, LibDays(lib));
      ReadTodaySpec(lib, today, started, skipped)
      == Ok(Reading(lib[i].name, ChapterBlocks(lib[i])[pos - DaysBefore(lib, i)]))
  {
    var pos := LibPosition((today - started) + LibDays(lib) - skipped, LibDays(lib));
    LocatedHere(lib, pos, i);
  }

  /** A position inside book `i`'s days is located at book `i`. */
  lemma {:induction false} LocatedHere(lib: seq<Book>, pos: nat, i: nat)
    requires Readable(lib) && i < |lib|
    requires DaysBefore(lib, i) <= pos < DaysBefore(lib, i + 1) && pos < LibDays(lib)
    ensures LocateFrom(lib, pos, 0) == Place(i, pos - DaysBefore(lib, i))
  {
    LocatedFrom(lib, pos, i, 0);
  }

  lemma {:induction false} LocatedFrom(lib: seq<Book>, pos: nat, i: nat, j: nat)
    requires Readable(lib) && j <= i < |lib|
    requires DaysBefore(lib, i) <= pos < DaysBefore(lib, i + 1) && pos < LibDays(lib)
    ensures DaysBefore(lib, j) <= pos
    ensures LocateFrom(lib, pos, j) == Place(i, pos - DaysBefore(lib, i))
    decreases i - j
  {
    DaysBeforeMono(lib, j, i);
    if j < i {
      DaysBeforeMono(lib, j + 1, i);
      LocatedFrom(lib, pos, i, j + 1);
    }
  }

  // ---------------------------------------------------------------------------
  // the library the schedule is written for
  // ---------------------------------------------------------------------------

  function Library(): seq<Book>
  {
    [Book("10", "First", 21, 2), Book("02", "Second", 12, 3), Book("03", "Thurd", 14, 3), Book("11", "Fours", 13, 1)]
  }

  /** The four books take 11, 4, 5 and 13 days; the library takes 33. */
  lemma LibraryDays()
    ensures ReadingDays(Book("10", "First", 21, 2)) == 11
    ensures ReadingDays(Library()[1]) == 4 && ReadingDays(Library()[2]) == 5 && ReadingDays(Library()[3]) == 13
    ensures LibDays(Library()) == 11 + 4 + 5 + 13
  {
    var lib := Library();
    assert ReadingDays(lib[0]) == 11 && ReadingDays(lib[1]) == 4;
    assert ReadingDays(lib[2]) == 5 && ReadingDays(lib[3]) == 13;
  }

  /** The second book's 12 chapters at 3 a day. */
  lemma SecondBookBlocks()
    ensures ChapterBlocks(Book("02", "Second", 12, 3)) == [[1, 2, 3], [4, 5, 6], [7, 8, 9], [10, 11, 12]]
  {
    var b := Book("02", "Second", 12, 3);
    var blocks := ChapterBlocks(b);
    var chapters := Chapters(12);
    assert ReadingDays(b) == 4;
    assert blocks[0] == chapters[0..3] == [1, 2, 3];
    assert blocks[1] == chapters[3..6] == [4, 5, 6];
    assert blocks[2] == chapters[6..9] == [7, 8, 9];
    assert blocks[3] == chapters[9..12] == [10, 11, 12];
  }

  /** On the day the schedule starts the first book's first two chapters are read. */
  lemma FirstDay(started: int)
    ensures ReadTodaySpec(Library(), started, started, 0) == Ok(Reading("First", [1, 2]))
  {
    var lib := Library();
    assert LibDays(lib) == 33 by { LibraryDays(); }
    assert LibPosition(33, 33) == 0 by { FloorDivUnique(33, 33, 1); }
    assert DaysBefore(lib, 1) == 11;
    var b := lib[0];
    assert ChapterBlocks(b)[0] == Chapters(21)[0..2] == [1, 2];
  }
}
