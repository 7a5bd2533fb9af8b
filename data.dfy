/**
 * The data loader's parsers for the MovieTweetings dumps, whose lines hold `::`-separated
 * fields: `movies.dat` lines read `id::Title (Year)::Genres`, `ratings.dat` lines read
 * `userId::movieId::rating::timestamp`. Each parser walks the lines of the text, skips
 * blank lines and lines with too few fields, and records one table size in the loader's
 * state: `numMovies` and `numUsers`.
 */
module MovieData {
  import opened JsValues
  import opened JsText

  /** A movie as `parseItemData` builds it; `None` in `id` is NaN, `None` in `year` is null. */
  datatype Movie = Movie(id: Option<int>, title: string, year: Option<int>)

  /**
   * A rating as `parseRatingData` builds it; `None` in an id is NaN. The rating is kept as
   * the text of its field: the floating-point value `parseFloat` makes of it is not modelled.
   */
  datatype Rating = Rating(userId: Option<int>, movieId: Option<int>, rating: string)

  const LineBreak: string := "\n"
  const FieldSeparator: string := "::"
  const YearOpener: string := " ("

  // ---------------------------------------------------------------- one line

  /**
   * The movie of one line of `movies.dat`, or `None` when the line is blank or has fewer
   * than two fields.
   */
  function MovieOfLine(line: string): Option<Movie>
  {
    if IsBlank(line) then None
    else
      var parts := Split(line, FieldSeparator);
      if |parts| >= 2 then Some(MovieOfFields(parts[0], parts[1])) else None
  }

  /**
   * The id is `parseInt` of the first field; the title is the second field up to its first
   * " (", and the year the first run of four digits after that " (" and before the next.
   */
  function MovieOfFields(idField: string, nameField: string): Movie
  {
    var titleParts := Split(nameField, YearOpener);
    var title := if |titleParts| > 1 then titleParts[0] else nameField;
    var year := if |titleParts| > 1 then FirstFourDigitNumber(titleParts[1]) else None;
    Movie(ParseInt(idField), title, year)
  }

  /**
   * The rating of one line of `ratings.dat`, or `None` when the line is blank or has fewer
   * than three fields. Ids that do not parse are kept as NaN; fields after the third are
   * ignored.
   */
  function RatingOfLine(line: string): Option<Rating>
  {
    if IsBlank(line) then None
    else
      var parts := Split(line, FieldSeparator);
      if |parts| >= 3 then Some(Rating(ParseInt(parts[0]), ParseInt(parts[1]), parts[2])) else None
  }

  /** A line of white space alone yields neither a movie nor a rating. */
  lemma BlankLineSkipped(line: string)
    requires forall i :: 0 <= i < |line| ==> IsWhiteSpace(line[i])
    ensures MovieOfLine(line) == None && RatingOfLine(line) == None
  {
    BlankIffAllWhiteSpace(line);
  }

  /**
   * A rating line yields a record exactly when it has a character other than white space
   * and at least three `::` fields, and then the record is made of the first three fields.
   */
  lemma RatingLineAccepted(line: string)
    ensures RatingOfLine(line).Some?
      <==> (exists i :: 0 <= i < |line| && !IsWhiteSpace(line[i])) && |Split(line, FieldSeparator)| >= 3
    ensures RatingOfLine(line).Some? ==>
      var parts := Split(line, FieldSeparator);
      RatingOfLine(line).value == Rating(ParseInt(parts[0]), ParseInt(parts[1]), parts[2])
  {
    BlankIffAllWhiteSpace(line);
  }

  /**
   * A movie line yields a record exactly when it has a character other than white space
   * and at least two `::` fields.
   */
  lemma MovieLineAccepted(line: string)
    ensures MovieOfLine(line).Some?
      <==> (exists i :: 0 <= i < |line| && !IsWhiteSpace(line[i])) && |Split(line, FieldSeparator)| >= 2
  {
    BlankIffAllWhiteSpace(line);
  }

  /**
   * The title is the name up to its first " ("; the year is read from the text between
   * that " (" and the next one (or the end), and there is none without a " (".
   */
  lemma TitleAndYear(idField: string, name: string)
    ensures var movie := MovieOfFields(idField, name);
      match IndexOf(name, YearOpener)
      case None => movie.title == name && movie.year == None
      case Some(p) =>
        var rest := name[p + |YearOpener|..];
        var segment := match IndexOf(rest, YearOpener) case None => rest case Some(q) => rest[..q];
        movie.title == name[..p] && movie.year == FirstFourDigitNumber(segment)
  {
    SplitFirstField(name, YearOpener);
    if IndexOf(name, YearOpener).Some? {
      var p := IndexOf(name, YearOpener).value;
      SplitFirstField(name[p + |YearOpener|..], YearOpener);
    }
  }

  /**
   * A movie line written as `id::Title (Year)::Genres` reads back as that movie, when the
   * title holds neither `::` nor " (" and the year has four digits.
   */
  lemma MovieLineRoundTrip(id: int, title: string, year: nat, genres: string)
    requires IndexOf(title, FieldSeparator) == None && IndexOf(title, YearOpener) == None
    requires 1000 <= year <= 9999
    ensures MovieOfLine(IntToString(id) + "::" + (title + " (" + NatToString(year) + ")") + "::" + genres)
         == Some(Movie(Some(id), title, Some(year)))
  {
    NumeralHasNoColon(id);
    MovieLineOfIdField(IntToString(id), title, year, genres);
    ParseIntOfNumeral(id);
  }

  /**
   * A movie line as the MovieTweetings dump writes it, with the id as a run of decimal
   * digits that may start with zeros (`0114508::Title (Year)::Genres`), reads back as
   * the value of those digits, that title and that year.
   */
  lemma MovieDumpLine(digits: string, title: string, year: nat, genres: string)
    requires digits != [] && forall i :: 0 <= i < |digits| ==> IsDecimalDigit(digits[i])
    requires IndexOf(title, FieldSeparator) == None && IndexOf(title, YearOpener) == None
    requires 1000 <= year <= 9999
    ensures MovieOfLine(digits + "::" + (title + " (" + NatToString(year) + ")") + "::" + genres)
         == Some(Movie(Some(DigitsValue(digits, 10)), title, Some(year)))
  {
    assert ':' !in digits by {
      assert forall i :: 0 <= i < |digits| ==> digits[i] != ':';
    }
    MovieLineOfIdField(digits, title, year, genres);
    ParseIntOfDigits([], digits, []);
    assert [] + (digits + []) == digits;
  }

  /** A line `idField::Title (Year)::Genres` reads back as `parseInt(idField)`, that title and that year. */
  lemma MovieLineOfIdField(idField: string, title: string, year: nat, genres: string)
    requires ':' !in idField
    requires IndexOf(title, FieldSeparator) == None && IndexOf(title, YearOpener) == None
    requires 1000 <= year <= 9999
    ensures MovieOfLine(idField + "::" + (title + " (" + NatToString(year) + ")") + "::" + genres)
         == Some(Movie(ParseInt(idField), title, Some(year)))
  {
    var name := title + " (" + NatToString(year) + ")";
    IndexOfAfter(idField, FieldSeparator, 0);
    NameHasNoSeparator(title, year);
    IndexOfAppendedPair(name, FieldSeparator);
    MovieLineOfFields(idField, name, genres);
    NameOfTitleAndYear(idField, title, year);
  }

  /**
   * A line `idField::name::genres` whose first two fields each end at the first `::`
   * yields the movie of those two fields.
   */
  lemma MovieLineOfFields(idField: string, name: string, genres: string)
    requires IndexOf(idField + FieldSeparator, FieldSeparator) == Some(|idField|)
    requires IndexOf(name + FieldSeparator, FieldSeparator) == Some(|name|)
    ensures MovieOfLine(idField + "::" + name + "::" + genres) == Some(MovieOfFields(idField, name))
  {
    var line := idField + "::" + name + "::" + genres;
    assert line == idField + FieldSeparator + (name + FieldSeparator + genres);
    SplitAfterFirst(idField, FieldSeparator, name + FieldSeparator + genres);
    SplitAfterFirst(name, FieldSeparator, genres);
    NotBlankWithColon(line, |idField|);
  }

  /** A line with a ':' in it is not blank, whatever its first field holds. */
  lemma NotBlankWithColon(line: string, j: nat)
    requires j < |line| && line[j] == ':'
    ensures !IsBlank(line)
  {
    BlankIffAllWhiteSpace(line);
    assert !IsWhiteSpace(line[j]);
  }

  /** The numeral of an integer holds no ':'. */
  lemma NumeralHasNoColon(n: int)
    ensures ':' !in IntToString(n)
  {
    var d := NatToString(if n < 0 then -n else n);
    assert forall i :: 0 <= i < |d| ==> IsDecimalDigit(d[i]);
  }

  /** `Title (Year)` holds no `::` when the title holds none, and ends with ')'. */
  lemma NameHasNoSeparator(title: string, year: nat)
    requires IndexOf(title, FieldSeparator) == None
    ensures var name := title + " (" + NatToString(year) + ")";
      IndexOf(name, FieldSeparator) == None && name[|name| - 1] == ')'
  {
    var suffix := " (" + NatToString(year) + ")";
    var name := title + suffix;
    var d := NatToString(year);
    assert forall i :: 0 <= i < |d| ==> IsDecimalDigit(d[i]);
    assert ':' !in suffix;
    forall q | 0 <= q
      ensures !Occurs(name, FieldSeparator, q)
    {
      if q + 2 <= |title| {
        assert name[q..q + 2] == title[q..q + 2];
        assert !Occurs(title, FieldSeparator, q);
      } else if q + 2 <= |name| {
        assert name[q + 1] == suffix[q + 1 - |title|];
        assert name[q..q + 2][1] == name[q + 1] != ':';
      }
    }
    assert IndexOf(name, FieldSeparator) == None;
    assert name[|name| - 1] == suffix[|suffix| - 1];
    assert title + " (" + NatToString(year) + ")" == name;
  }

  /** A field without ':' splits off as the first of the `::` fields. */
  lemma SplitOffField(a: string, rest: string)
    requires ':' !in a
    ensures Split(a + FieldSeparator + rest, FieldSeparator) == [a] + Split(rest, FieldSeparator)
  {
    IndexOfAfter(a, FieldSeparator, 0);
    SplitAfterFirst(a, FieldSeparator, rest);
  }

  lemma ParseIntOfNumeral(n: int)
    ensures ParseInt(IntToString(n)) == Some(n)
  {
    var s := IntToString(n);
    ParseSignedOf(n, []);
    assert s + [] == s;
    assert s[0] == '-' || IsDecimalDigit(s[0]) by {
      var d := NatToString(if n < 0 then -n else n);
      assert IsDecimalDigit(d[0]);
    }
    TrimStartAfterWhiteSpace([], s);
    assert [] + s == s;
  }

  /** `Title (Year)` splits at its " (" into the title and the year. */
  lemma NameOfTitleAndYear(idField: string, title: string, year: nat)
    requires IndexOf(title, YearOpener) == None
    requires 1000 <= year <= 9999
    ensures MovieOfFields(idField, title + " (" + NatToString(year) + ")") == Movie(ParseInt(idField), title, Some(year))
  {
    var yearText := NatToString(year);
    var name := title + " (" + yearText + ")";
    assert title == [] || [title[|title| - 1], ' '] != YearOpener by {
      if title != [] {
        assert [title[|title| - 1], ' '][1] != YearOpener[1];
      }
    }
    IndexOfAppendedPair(title, YearOpener);
    assert name == title + YearOpener + (yearText + ")");
    SplitAfterFirst(title, YearOpener, yearText + ")");
    YearOfNumeral(year);
  }

  /** The four-digit numeral of a year, closed by ')', yields that year. */
  lemma YearOfNumeral(year: nat)
    requires 1000 <= year <= 9999
    ensures Split(NatToString(year) + ")", YearOpener) == [NatToString(year) + ")"]
    ensures FirstFourDigitNumber(NatToString(year) + ")") == Some(year)
  {
    var yearText := NatToString(year);
    var s := yearText + ")";
    NatToStringFourDigits(year);
    assert '(' !in s by {
      assert forall i :: 0 <= i < |yearText| ==> IsDecimalDigit(yearText[i]);
    }
    IndexOfAfter(s, YearOpener, 1);
    assert FourDigitsAt(s, 0);
    assert FindFourDigits(s, 0) == Some(0);
    assert s[0..4] == yearText;
    ParseIntOfString([], year, []);
    assert [] + IntToString(year) + [] == yearText;
  }

  /**
   * A rating line written as `userId::movieId::rating`, optionally followed by further
   * `::` fields such as a timestamp, reads back as that rating, when the rating text
   * holds no ':'.
   */
  lemma RatingLineRoundTrip(userId: int, movieId: int, rating: string, more: string)
    requires ':' !in rating
    requires more == [] || (|more| >= 2 && more[..2] == "::")
    ensures RatingOfLine(IntToString(userId) + "::" + IntToString(movieId) + "::" + (rating + more))
         == Some(Rating(Some(userId), Some(movieId), rating))
  {
    NumeralHasNoColon(userId);
    NumeralHasNoColon(movieId);
    LastFieldThenMore(rating, more);
    RatingLineOfFields(IntToString(userId), IntToString(movieId), rating + more);
    ParseIntOfNumeral(userId);
    ParseIntOfNumeral(movieId);
  }

  /**
   * A line `u::m::rest` with no ':' in its first two fields yields the rating of those and
   * of the first field of `rest`.
   */
  lemma RatingLineOfFields(u: string, m: string, rest: string)
    requires ':' !in u && ':' !in m
    ensures RatingOfLine(u + "::" + m + "::" + rest)
         == Some(Rating(ParseInt(u), ParseInt(m), Split(rest, FieldSeparator)[0]))
  {
    var line := u + "::" + m + "::" + rest;
    var tail := m + FieldSeparator + rest;
    assert line == u + FieldSeparator + tail;
    SplitOffField(u, tail);
    SplitOffField(m, rest);
    var parts := Split(line, FieldSeparator);
    assert parts == [u] + ([m] + Split(rest, FieldSeparator));
    assert line[|u|] == ':';
    NotBlankWithColon(line, |u|);
    RatingOfParts(line, parts);
  }

  lemma RatingOfParts(line: string, parts: seq<string>)
    requires !IsBlank(line) && Split(line, FieldSeparator) == parts && |parts| >= 3
    ensures RatingOfLine(line) == Some(Rating(ParseInt(parts[0]), ParseInt(parts[1]), parts[2]))
  {
  }

  /**
   * A rating line as the MovieTweetings dump writes it, with ids as runs of decimal digits
   * that may start with zeros (`14::0114508::8::1381006850`), reads back as the values of
   * those digits and that rating text.
   */
  lemma RatingDumpLine(u: string, m: string, rating: string, more: string)
    requires u != [] && forall i :: 0 <= i < |u| ==> IsDecimalDigit(u[i])
    requires m != [] && forall i :: 0 <= i < |m| ==> IsDecimalDigit(m[i])
    requires ':' !in rating
    requires more == [] || (|more| >= 2 && more[..2] == "::")
    ensures RatingOfLine(u + "::" + m + "::" + (rating + more))
         == Some(Rating(Some(DigitsValue(u, 10)), Some(DigitsValue(m, 10)), rating))
  {
    assert ':' !in u && ':' !in m by {
      assert forall i :: 0 <= i < |u| ==> u[i] != ':';
      assert forall i :: 0 <= i < |m| ==> m[i] != ':';
    }
    LastFieldThenMore(rating, more);
    RatingLineOfFields(u, m, rating + more);
    ParseIntOfDigits([], u, []);
    ParseIntOfDigits([], m, []);
    assert [] + (u + []) == u && [] + (m + []) == m;
  }

  lemma LastFieldThenMore(rating: string, more: string)
    requires ':' !in rating
    requires more == [] || (|more| >= 2 && more[..2] == "::")
    ensures Split(rating + more, FieldSeparator)[0] == rating
  {
    if more == [] {
      assert rating + more == rating;
      IndexOfAfter(rating, FieldSeparator, 0);
    } else {
      assert rating + more == rating + FieldSeparator + more[2..];
      SplitOffField(rating, more[2..]);
    }
  }

  // ---------------------------------------------------------------- all lines

  /** The records of the lines that yield one, in line order. */
  function Collect<T>(lines: seq<string>, parse: string -> Option<T>): seq<T>
    decreases |lines|
  {
    if lines == [] then []
    else
      match parse(lines[|lines| - 1])
      case None => Collect(lines[..|lines| - 1], parse)
      case Some(r) => Collect(lines[..|lines| - 1], parse) + [r]
  }

  /** The positions of the lines that yield a record. */
  function Accepted<T>(lines: seq<string>, parse: string -> Option<T>): (positions: seq<nat>)
    ensures forall k :: 0 <= k < |positions| ==> positions[k] < |lines| && parse(lines[positions[k]]).Some?
    ensures forall k, l :: 0 <= k < l < |positions| ==> positions[k] < positions[l]
    ensures forall i :: 0 <= i < |lines| && parse(lines[i]).Some? ==> i in positions
    decreases |lines|
  {
    if lines == [] then []
    else
      var init := Accepted(lines[..|lines| - 1], parse);
      if parse(lines[|lines| - 1]).Some? then init + [|lines| - 1] else init
  }

  /**
   * One record per accepted line, in line order: the k-th record is what the k-th
   * accepted line yields, so there are as many records as accepted lines.
   */
  lemma {:induction false} CollectByLine<T>(lines: seq<string>, parse: string -> Option<T>)
    ensures |Collect(lines, parse)| == |Accepted(lines, parse)|
    ensures forall k :: 0 <= k < |Accepted(lines, parse)| ==>
      parse(lines[Accepted(lines, parse)[k]]) == Some(Collect(lines, parse)[k])
    decreases |lines|
  {
    if lines != [] {
      var init := lines[..|lines| - 1];
      CollectByLine(init, parse);
      var out, idx := Collect(lines, parse), Accepted(lines, parse);
      forall k | 0 <= k < |idx|
        ensures parse(lines[idx[k]]) == Some(out[k])
      {
        if k < |Accepted(init, parse)| {
          assert idx[k] == Accepted(init, parse)[k] && out[k] == Collect(init, parse)[k];
          assert lines[idx[k]] == init[idx[k]];
        }
      }
    }
  }

  /** Parsing two runs of lines one after the other concatenates their records. */
  lemma {:induction false} CollectConcat<T>(a: seq<string>, b: seq<string>, parse: string -> Option<T>)
    ensures Collect(a + b, parse) == Collect(a, parse) + Collect(b, parse)
    decreases |b|
  {
    if b != [] {
      var b' := b[..|b| - 1];
      CollectConcat(a, b', parse);
      assert (a + b)[..|a + b| - 1] == a + b';
      assert (a + b)[|a + b| - 1] == b[|b| - 1];
    } else {
      assert a + b == a;
    }
  }

  /** The records of the first `i + 1` lines: those of the first `i`, then line `i`'s. */
  lemma CollectNext<T>(lines: seq<string>, i: nat, parse: string -> Option<T>)
    requires i < |lines|
    ensures Collect(lines[..i + 1], parse)
         == Collect(lines[..i], parse) + match parse(lines[i]) case None => [] case Some(r) => [r]
  {
    assert lines[..i + 1][..i] == lines[..i];
  }

  /** The records of a text whose first line is `first`: that line's record, then the rest's. */
  lemma FirstLine<T>(first: string, rest: string, parse: string -> Option<T>)
    requires '\n' !in first
    ensures Collect(Split(first + "\n" + rest, LineBreak), parse)
         == Collect([first], parse) + Collect(Split(rest, LineBreak), parse)
  {
    IndexOfAfter(first, LineBreak, 0);
    SplitAfterFirst(first, LineBreak, rest);
    CollectConcat([first], Split(rest, LineBreak), parse);
  }

  // ---------------------------------------------------------------- the loader's state

  /** The user ids that occur in `ratings`. */
  ghost function UserIds(ratings: seq<Rating>): set<Option<int>>
  {
    set k | 0 <= k < |ratings| :: ratings[k].userId
  }

  lemma UserIdsAppend(ratings: seq<Rating>, r: Rating)
    ensures UserIds(ratings + [r]) == UserIds(ratings) + {r.userId}
  {
    var s := ratings + [r];
    assert s[|ratings|] == r;
    assert forall k :: 0 <= k < |ratings| ==> s[k] == ratings[k];
  }

  /**
   * `n` is what `Math.max(...userIds) + 1` gives for the user ids of `ratings`: negative
   * infinity when there are none, NaN when one of them is NaN, and otherwise one more than
   * the largest, so that every user id is below it.
   */
  ghost predicate IsUserTableSize(ratings: seq<Rating>, n: JsNumber)
  {
    if ratings == [] then n == NegInfinity
    else if exists k :: 0 <= k < |ratings| && ratings[k].userId == None then n == NaN
    else
      && n.Finite?
      && (forall k :: 0 <= k < |ratings| ==> ratings[k].userId.Some? && ratings[k].userId.value < n.value)
      && (exists k :: 0 <= k < |ratings| && ratings[k].userId == Some(n.value - 1))
  }

  /** The table size is determined by the ratings. */
  lemma UserTableSizeUnique(ratings: seq<Rating>, a: JsNumber, b: JsNumber)
    requires IsUserTableSize(ratings, a) && IsUserTableSize(ratings, b)
    ensures a == b
  {
    if a.Finite? && b.Finite? {
      var k :| 0 <= k < |ratings| && ratings[k].userId == Some(a.value - 1);
      var l :| 0 <= l < |ratings| && ratings[l].userId == Some(b.value - 1);
      assert ratings[k].userId.value < b.value && ratings[l].userId.value < a.value;
    }
  }

  /** `Math.max(...args)` for a set of parsed ids, visited in any order. */
  method MathMax(args: set<Option<int>>) returns (m: JsNumber)
    ensures args == {} ==> m == NegInfinity
    ensures None in args ==> m == NaN
    ensures args != {} && None !in args ==>
      m.Finite? && Some(m.value) in args && forall v :: v in args && v.Some? ==> v.value <= m.value
  {
    m := NegInfinity;
    var rest := args;
    while rest != {}
      invariant rest <= args
      invariant m == NegInfinity <==> rest == args
      invariant m == NaN <==> None in args - rest
      invariant m.Finite? ==> Some(m.value) in args - rest
      invariant m.Finite? ==> forall v :: v in args - rest && v.Some? ==> v.value <= m.value
      decreases rest
    {
      var v :| v in rest;
      m := MaxStep(m, v);
      rest := rest - {v};
    }
  }

  /** `Math.max(...userIds(ratings)) + 1` is the user table size. */
  lemma UserTableSizeOfMax(ratings: seq<Rating>, m: JsNumber)
    requires UserIds(ratings) == {} ==> m == NegInfinity
    requires None in UserIds(ratings) ==> m == NaN
    requires UserIds(ratings) != {} && None !in UserIds(ratings) ==>
      m.Finite? && Some(m.value) in UserIds(ratings)
      && forall v :: v in UserIds(ratings) && v.Some? ==> v.value <= m.value
    ensures IsUserTableSize(ratings, PlusOne(m))
  {
    var ids := UserIds(ratings);
    if ratings != [] {
      assert ratings[0].userId in ids;
      if exists k :: 0 <= k < |ratings| && ratings[k].userId == None {
        var k :| 0 <= k < |ratings| && ratings[k].userId == None;
        assert ratings[k].userId in ids;
      } else {
        assert None !in ids;
        var k :| 0 <= k < |ratings| && ratings[k].userId == Some(m.value);
        forall l | 0 <= l < |ratings|
          ensures ratings[l].userId.Some? && ratings[l].userId.value < PlusOne(m).value
        {
          assert ratings[l].userId in ids;
        }
      }
    }
  }

  /**
   * The loader's shared state: the two table sizes the parsers record. The parsed lists
   * themselves are returned to the caller.
   */
  class DataStore {
    var numUsers: JsNumber
    var numMovies: nat

    constructor ()
      ensures numUsers == Finite(0) && numMovies == 0
    {
      numUsers := Finite(0);
      numMovies := 0;
    }

    /** `parseItemData`: the movies of the lines of `text`, and their number. */
    method ParseItemData(text: string) returns (movies: seq<Movie>)
      modifies this`numMovies
      ensures movies == Collect(Split(text, LineBreak), MovieOfLine)
      ensures numMovies == |movies|
    {
      movies := [];
      var lines := Split(text, LineBreak);
      for i := 0 to |lines|
        invariant movies == Collect(lines[..i], MovieOfLine)
      {
        var line := lines[i];
        CollectNext(lines, i, MovieOfLine);
        if !IsBlank(line) {
          var parts := Split(line, FieldSeparator);
          if |parts| >= 2 {
            var movieId := ParseInt(parts[0]);
            var titleParts := Split(parts[1], YearOpener);
            var title := parts[1];
            var year := None;
            if |titleParts| > 1 {
              title := titleParts[0];
              var yearMatch := FindFourDigits(titleParts[1], 0);
              if yearMatch.Some? {
                year := ParseInt(titleParts[1][yearMatch.value..yearMatch.value + 4]);
              }
            }
            assert MovieOfLine(line) == Some(Movie(movieId, title, year));
            movies := movies + [Movie(movieId, title, year)];
          }
        }
      }
      assert lines[..|lines|] == lines;
      numMovies := |movies|;
    }

    /**
     * `parseRatingData`: the ratings of the lines of `text`, and the size of the user
     * table, `Math.max` of the user ids plus one.
     */
    method ParseRatingData(text: string) returns (ratings: seq<Rating>)
      modifies this`numUsers
      ensures ratings == Collect(Split(text, LineBreak), RatingOfLine)
      ensures IsUserTableSize(ratings, numUsers)
    {
      ratings := [];
      var userSet: set<Option<int>> := {};
      var lines := Split(text, LineBreak);
      for i := 0 to |lines|
        invariant ratings == Collect(lines[..i], RatingOfLine)
        invariant userSet == UserIds(ratings)
      {
        var line := lines[i];
        CollectNext(lines, i, RatingOfLine);
        if !IsBlank(line) {
          var parts := Split(line, FieldSeparator);
          if |parts| >= 3 {
            var userId := ParseInt(parts[0]);
            var movieId := ParseInt(parts[1]);
            var rating := parts[2];
            assert RatingOfLine(line) == Some(Rating(userId, movieId, rating));
            UserIdsAppend(ratings, Rating(userId, movieId, rating));
            ratings := ratings + [Rating(userId, movieId, rating)];
            userSet := userSet + {userId};
          }
        }
      }
      assert lines[..|lines|] == lines;
      var largest := MathMax(userSet);
      UserTableSizeOfMax(ratings, largest);
      numUsers := PlusOne(largest);
    }
  }
}
