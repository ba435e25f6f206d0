/** The string operations of Go's standard library that the gateway's text formats are made of. */
module Text {
  import opened Wrappers

  /** The white space characters of unicode.IsSpace. */
  predicate IsSpace(c: char) {
    var n := c as int;
    || 0x09 <= n <= 0x0D || n == 0x20 || n == 0x85 || n == 0xA0 || n == 0x1680
    || 0x2000 <= n <= 0x200A || n == 0x2028 || n == 0x2029 || n == 0x202F || n == 0x205F || n == 0x3000
  }

  // ---------------------------------------------------------------------
  // strings.TrimSpace
  // ---------------------------------------------------------------------

  function TrimLeft(s: string): string {
    if s != [] && IsSpace(s[0]) then TrimLeft(s[1..]) else s
  }

  function TrimRight(s: string): string {
    if s != [] && IsSpace(s[|s|-1]) then TrimRight(s[..|s|-1]) else s
  }

  function TrimSpace(s: string): string {
    TrimRight(TrimLeft(s))
  }

  predicate Trimmed(s: string) {
    s == [] || (!IsSpace(s[0]) && !IsSpace(s[|s|-1]))
  }

  predicate Blank(s: string) {
    forall i :: 0 <= i < |s| ==> IsSpace(s[i])
  }

  lemma {:induction false} TrimLeftCuts(s: string) returns (lead: string)
    ensures s == lead + TrimLeft(s) && Blank(lead)
    ensures TrimLeft(s) == [] || !IsSpace(TrimLeft(s)[0])
  {
    if s != [] && IsSpace(s[0]) {
      var more := TrimLeftCuts(s[1..]);
      lead := [s[0]] + more;
    } else {
      lead := [];
    }
  }

  lemma {:induction false} TrimRightCuts(s: string) returns (tail: string)
    ensures s == TrimRight(s) + tail && Blank(tail)
    ensures TrimRight(s) == [] || !IsSpace(TrimRight(s)[|TrimRight(s)|-1])
  {
    if s != [] && IsSpace(s[|s|-1]) {
      var more := TrimRightCuts(s[..|s|-1]);
      tail := more + [s[|s|-1]];
    } else {
      tail := [];
    }
  }

  /** TrimSpace takes white space, and all of it, off both ends. */
  lemma TrimSpaceCuts(s: string) returns (lead: string, tail: string)
    ensures s == lead + TrimSpace(s) + tail && Blank(lead) && Blank(tail) && Trimmed(TrimSpace(s))
  {
    lead := TrimLeftCuts(s);
    tail := TrimRightCuts(TrimLeft(s));
    var t := TrimSpace(s);
    assert TrimLeft(s) == t + tail;
    if t != [] { assert t[0] == TrimLeft(s)[0]; }
  }

  lemma TrimSpaceKeeps(s: string)
    ensures forall c :: c in TrimSpace(s) ==> c in s
    ensures Trimmed(TrimSpace(s))
  {
    var lead, tail := TrimSpaceCuts(s);
  }

  lemma TrimmedStays(s: string)
    requires Trimmed(s)
    ensures TrimSpace(s) == s
  {
  }

  lemma {:induction false} TrimLeftBlank(lead: string, s: string)
    requires Blank(lead)
    ensures TrimLeft(lead + s) == TrimLeft(s)
  {
    if lead == "" {
      assert lead + s == s;
    } else {
      assert (lead + s)[1..] == lead[1..] + s;
      TrimLeftBlank(lead[1..], s);
    }
  }

  lemma {:induction false} TrimRightBlank(s: string, tail: string)
    requires Blank(tail)
    ensures TrimRight(s + tail) == TrimRight(s)
  {
    if tail == "" {
      assert s + tail == s;
    } else {
      assert (s + tail)[..|s + tail|-1] == s + tail[..|tail|-1];
      TrimRightBlank(s, tail[..|tail|-1]);
    }
  }

  /** Cutting white space off both ends leaves what is in between. */
  lemma TrimSpaceIs(lead: string, s: string, tail: string)
    requires Blank(lead) && Blank(tail) && Trimmed(s)
    ensures TrimSpace(lead + s + tail) == s
  {
    assert lead + s + tail == lead + (s + tail);
    TrimLeftBlank(lead, s + tail);
    if s == "" {
      assert s + tail == tail && tail + "" == tail;
      TrimLeftBlank(tail, "");
    } else {
      TrimRightBlank(s, tail);
    }
  }

  lemma TrimTwice(s: string)
    ensures TrimSpace(TrimSpace(s)) == TrimSpace(s)
  {
    TrimSpaceKeeps(s);
    TrimmedStays(TrimSpace(s));
  }

  /** A leading space is trimmed away. */
  lemma TrimLeading(s: string)
    ensures TrimSpace([' '] + s) == TrimSpace(s)
  {
    assert ([' '] + s)[1..] == s;
  }

  function Spaces(n: nat): string {
    seq(n, _ => ' ')
  }

  /** Leading spaces are trimmed away, however many. */
  lemma {:induction false} TrimSpaces(n: nat, s: string)
    ensures TrimSpace(Spaces(n) + s) == TrimSpace(s)
  {
    if n == 0 {
      assert Spaces(0) + s == s;
    } else {
      TrimSpaces(n - 1, s);
      TrimLeading(Spaces(n - 1) + s);
      assert Spaces(n) + s == [' '] + (Spaces(n - 1) + s);
    }
  }

  // ---------------------------------------------------------------------
  // strings.Cut, strings.Split, strings.Join
  // ---------------------------------------------------------------------

  /** The text before and after the first c, as in SplitN(s, c, 2); None when there is no c. */
  function Cut(s: string, c: char): (r: Option<(string, string)>)
    ensures r.None? ==> c !in s
    ensures r.Some? ==> s == r.value.0 + [c] + r.value.1 && c !in r.value.0
  {
    if s == [] then None
    else if s[0] == c then Some(([], s[1..]))
    else
      match Cut(s[1..], c)
      case None => None
      case Some(p) => assert s == [s[0]] + s[1..]; Some(([s[0]] + p.0, p.1))
  }

  /** The first c in a text is where it is cut. */
  lemma {:induction false} CutUnique(a: string, b: string, c: char)
    requires c !in a
    ensures Cut(a + [c] + b, c) == Some((a, b))
  {
    var s := a + [c] + b;
    if a == [] {
      assert s[1..] == b;
    } else {
      assert s[1..] == a[1..] + [c] + b;
      CutUnique(a[1..], b, c);
      assert [a[0]] + a[1..] == a;
    }
  }

  /** The pieces between the separators; there is always at least one. */
  function Split(s: string, c: char): (r: seq<string>)
    ensures |r| >= 1
    decreases |s|
  {
    match Cut(s, c)
    case None => [s]
    case Some(p) => [p.0] + Split(p.1, c)
  }

  lemma SplitEmpty(c: char)
    ensures Split("", c) == [""]
  {
  }

  lemma {:induction false} SplitPieces(s: string, c: char)
    ensures forall i :: 0 <= i < |Split(s, c)| ==> c !in Split(s, c)[i]
    decreases |s|
  {
    match Cut(s, c)
    case None =>
    case Some(p) => SplitPieces(p.1, c);
  }

  /** The pieces with the separator between them again. */
  function Rejoined(pieces: seq<string>, c: char): string
    requires pieces != []
  {
    if |pieces| == 1 then pieces[0] else pieces[0] + [c] + Rejoined(pieces[1..], c)
  }

  /** The pieces of a split text, joined by the separator, are the text. */
  lemma {:induction false} SplitRejoins(s: string, c: char)
    ensures Rejoined(Split(s, c), c) == s
    decreases |s|
  {
    var r := Cut(s, c);
    if r.Some? {
      SplitRejoins(r.value.1, c);
      var rest := Split(r.value.1, c);
      assert ([r.value.0] + rest)[1..] == rest;
    }
  }

  const SEPARATOR := ", "

  /** The items with a comma and a space between them. */
  function Join(items: seq<string>): string {
    if items == [] then ""
    else if |items| == 1 then items[0]
    else items[0] + SEPARATOR + Join(items[1..])
  }

  /** Another item comes after a comma and a space. */
  lemma {:induction false} JoinOneMore(items: seq<string>, item: string)
    requires items != []
    ensures Join(items + [item]) == Join(items) + ", " + item
  {
    if |items| == 1 {
      assert (items + [item])[1..] == [item];
    } else {
      JoinOneMore(items[1..], item);
      assert (items + [item])[1..] == items[1..] + [item];
      assert items[0] + SEPARATOR + (Join(items[1..]) + ", " + item)
          == items[0] + SEPARATOR + Join(items[1..]) + ", " + item;
    }
  }

  // ---------------------------------------------------------------------
  // Comma-separated items
  // ---------------------------------------------------------------------

  function TidyOne(part: string): seq<string> {
    if TrimSpace(part) == "" then [] else [TrimSpace(part)]
  }

  /** The pieces, trimmed, without the empty ones. */
  function Tidy(parts: seq<string>): seq<string> {
    if parts == [] then []
    else Tidy(parts[..|parts|-1]) + TidyOne(parts[|parts|-1])
  }

  /** The items of a comma-separated text. */
  function Items(s: string): seq<string> {
    Tidy(Split(TrimSpace(s), ','))
  }

  lemma {:induction false} TidyAppend(a: seq<string>, b: seq<string>)
    ensures Tidy(a + b) == Tidy(a) + Tidy(b)
  {
    if b == [] {
      assert a + b == a;
    } else {
      assert (a + b)[..|a + b|-1] == a + b[..|b|-1];
      TidyAppend(a, b[..|b|-1]);
    }
  }

  lemma TidySingle(part: string)
    ensures Tidy([part]) == TidyOne(part)
  {
    assert Tidy([part][..0]) == [];
  }

  lemma TidyNext(parts: seq<string>, i: nat)
    requires i < |parts|
    ensures Tidy(parts[..i+1]) == Tidy(parts[..i]) + TidyOne(parts[i])
  {
    hide Tidy, TidyOne;
    assert parts[..i+1] == parts[..i] + [parts[i]];
    TidyAppend(parts[..i], [parts[i]]);
    TidySingle(parts[i]);
  }

  /** One of the pieces is the item with white space around it. */
  predicate HasPiece(parts: seq<string>, item: string) {
    exists i :: 0 <= i < |parts| && TrimSpace(parts[i]) == item
  }

  lemma PieceOneMore(parts: seq<string>, last: string, item: string)
    ensures HasPiece(parts + [last], item) <==> HasPiece(parts, item) || TrimSpace(last) == item
  {
    hide TrimSpace;
    var more := parts + [last];
    if i :| 0 <= i < |parts| && TrimSpace(parts[i]) == item { assert more[i] == parts[i]; }
    if TrimSpace(last) == item { assert more[|parts|] == last; }
  }

  lemma {:induction false} TidyHas(parts: seq<string>, item: string)
    ensures item in Tidy(parts) <==> item != "" && HasPiece(parts, item)
  {
    if parts == [] {
    } else {
      hide TrimSpace, HasPiece;
      var front, last := parts[..|parts|-1], parts[|parts|-1];
      TidyHas(front, item);
      PieceOneMore(front, last, item);
      assert front + [last] == parts;
    }
  }

  /** The items of a text are what is left, trimmed, of the pieces between its commas. */
  lemma ItemsAre(s: string, item: string)
    ensures item in Items(s) <==> item != "" && HasPiece(Split(TrimSpace(s), ','), item)
  {
    TidyHas(Split(TrimSpace(s), ','), item);
  }

  /** What every item of a comma-separated text looks like. */
  predicate Clean(item: string) {
    item != "" && Trimmed(item) && ',' !in item
  }

  ghost predicate AllClean(items: seq<string>) {
    forall i :: 0 <= i < |items| ==> Clean(items[i])
  }

  lemma {:induction false} TidyIsClean(parts: seq<string>)
    requires forall i :: 0 <= i < |parts| ==> ',' !in parts[i]
    ensures AllClean(Tidy(parts))
  {
    if parts == [] {
    } else {
      TidyIsClean(parts[..|parts|-1]);
      TrimSpaceKeeps(parts[|parts|-1]);
    }
  }

  lemma ItemsAreClean(s: string)
    ensures AllClean(Items(s))
  {
    SplitPieces(TrimSpace(s), ',');
    TidyIsClean(Split(TrimSpace(s), ','));
  }

  lemma CleanStays(item: string)
    requires Clean(item)
    ensures TidyOne(item) == TidyOne([' '] + item) == [item]
  {
    TrimmedStays(item);
    TrimLeading(item);
  }

  lemma NoComma(item: string)
    requires Clean(item)
    ensures ',' !in item && ',' !in [' '] + item
  {
  }

  /** Splitting joined clean items, with or without a space before them, gives the items back. */
  lemma {:induction false} SplitJoin(items: seq<string>, lead: string)
    requires items != [] && AllClean(items) && (lead == "" || lead == " ")
    ensures Tidy(Split(lead + Join(items), ',')) == items
    decreases |items|
  {
    hide Tidy, TidyOne, Clean, Trimmed, TrimSpace;
    var first := lead + items[0];
    CleanStays(items[0]);
    TidySingle(first);
    assert first == items[0] || first == [' '] + items[0];
    NoComma(items[0]);
    if |items| == 1 {
      assert Join(items) == items[0];
      assert Split(first, ',') == [first];
    } else {
      var more := " " + Join(items[1..]);
      assert lead + Join(items) == first + [','] + more;
      CutUnique(first, more, ',');
      SplitJoin(items[1..], " ");
      TidyAppend([first], Split(more, ','));
      assert items == [items[0]] + items[1..];
    }
  }

  lemma {:induction false} JoinEnds(items: seq<string>)
    requires items != [] && AllClean(items)
    ensures Join(items) != "" && Join(items)[0] == items[0][0]
    ensures !IsSpace(Join(items)[|Join(items)|-1])
  {
    if |items| > 1 { JoinEnds(items[1..]); }
  }

  /** Every list of clean items is what its joined text parses to. */
  lemma ItemsOfJoin(items: seq<string>)
    requires AllClean(items)
    ensures Items(Join(items)) == items
  {
    if items == [] {
      assert Split("", ',') == [""];
      TidySingle("");
    } else {
      JoinEnds(items);
      TrimmedStays(Join(items));
      SplitJoin(items, "");
      assert "" + Join(items) == Join(items);
    }
  }

  // ---------------------------------------------------------------------
  // sort.Strings
  // ---------------------------------------------------------------------

  ghost predicate NoRepeats(items: seq<string>) {
    forall i, j :: 0 <= i < j < |items| ==> items[i] != items[j]
  }

  /** The list has each element of the set once. */
  ghost predicate Enumerates(keys: seq<string>, all: set<string>) {
    NoRepeats(keys) && forall k :: k in keys <==> k in all
  }

  /** Go's string order, by code points. */
  predicate AtMost(a: string, b: string) {
    a == [] || (b != [] && (a[0] < b[0] || (a[0] == b[0] && AtMost(a[1..], b[1..]))))
  }

  predicate Ascending(xs: seq<string>) {
    forall i, j :: 0 <= i < j < |xs| ==> AtMost(xs[i], xs[j])
  }

  lemma {:induction false} AtMostOrders(a: string, b: string, c: string)
    ensures AtMost(a, b) || AtMost(b, a)
    ensures AtMost(a, b) && AtMost(b, c) ==> AtMost(a, c)
    decreases |a| + |b| + |c|
  {
    if a != [] && b != [] && c != [] { AtMostOrders(a[1..], b[1..], c[1..]); }
    else if a != [] && b != [] { AtMostOrders(a[1..], b[1..], c); }
  }

  /** The first difference decides. */
  lemma {:induction false} FirstDifference(p: string, c: char, d: char, x: string, y: string)
    requires c < d
    ensures AtMost(p + ([c] + x), p + ([d] + y)) && !AtMost(p + ([d] + y), p + ([c] + x))
  {
    var a, b := [c] + x, [d] + y;
    if p == "" {
      assert p + a == a && p + b == b;
    } else {
      FirstDifference(p[1..], c, d, x, y);
      assert (p + a)[1..] == p[1..] + a && (p + b)[1..] == p[1..] + b;
    }
  }

  /** A beginning comes before the whole. */
  lemma {:induction false} BeginningFirst(p: string, x: string)
    ensures AtMost(p, p + x) && (x != "" ==> !AtMost(p + x, p))
  {
    if p == "" {
      assert p + x == x;
    } else {
      BeginningFirst(p[1..], x);
      assert (p + x)[1..] == p[1..] + x;
    }
  }

  /** Puts x where it belongs in a sorted list. */
  function Insert(xs: seq<string>, x: string): seq<string> {
    if xs == [] || AtMost(x, xs[0]) then [x] + xs else [xs[0]] + Insert(xs[1..], x)
  }

  lemma {:induction false} InsertAdds(xs: seq<string>, x: string)
    ensures multiset(Insert(xs, x)) == multiset(xs) + multiset{x}
    ensures forall y :: y in Insert(xs, x) <==> y == x || y in xs
  {
    hide AtMost;
    if xs == [] {
    } else {
      assert xs == [xs[0]] + xs[1..];
      assert forall y :: y in xs <==> y == xs[0] || y in xs[1..];
      if !AtMost(x, xs[0]) { InsertAdds(xs[1..], x); }
    }
  }

  lemma LeastFirst(xs: seq<string>, x: string)
    requires Ascending(xs) && x in xs
    ensures AtMost(xs[0], x)
  {
    AtMostOrders(x, x, x);
  }

  lemma HeadIsLeast(xs: seq<string>, x: string, r: seq<string>)
    requires xs != [] && Ascending(xs) && AtMost(xs[0], x)
    requires forall y :: y in r <==> y == x || y in xs[1..]
    ensures forall i :: 0 <= i < |r| ==> AtMost(xs[0], r[i])
  {
    hide AtMost;
    forall i | 0 <= i < |r| ensures AtMost(xs[0], r[i]) {
      assert r[i] in r;
      if r[i] != x { LeastFirst(xs, r[i]); }
    }
  }

  lemma {:induction false} InsertKeeps(xs: seq<string>, x: string)
    requires Ascending(xs)
    ensures Ascending(Insert(xs, x))
  {
    hide AtMost;
    if xs == [] {
    } else {
      if AtMost(x, xs[0]) {
        forall i | 0 <= i < |xs| ensures AtMost(x, xs[i]) { AtMostOrders(x, xs[0], xs[i]); }
      } else {
        InsertKeeps(xs[1..], x);
        InsertAdds(xs[1..], x);
        AtMostOrders(x, xs[0], x);
        HeadIsLeast(xs, x, Insert(xs[1..], x));
      }
    }
  }

  lemma {:induction false} InsertSorts(xs: seq<string>, x: string)
    requires Ascending(xs) && NoRepeats(xs) && x !in xs
    ensures var r := Insert(xs, x);
      Ascending(r) && NoRepeats(r) && forall y :: y in r <==> y == x || y in xs
  {
    hide AtMost;
    InsertKeeps(xs, x);
    InsertAdds(xs, x);
    if xs != [] && !AtMost(x, xs[0]) {
      assert xs == [xs[0]] + xs[1..];
      InsertAdds(xs[1..], x);
      InsertSorts(xs[1..], x);
      var r := Insert(xs[1..], x);
      forall i | 0 <= i < |r| ensures r[i] != xs[0] { assert r[i] in r; }
    }
  }

  lemma {:induction false} SortedExists(all: set<string>)
    ensures exists xs :: Enumerates(xs, all) && Ascending(xs)
  {
    if all == {} {
      assert Enumerates([], all) && Ascending([]);
    } else {
      var x :| x in all;
      SortedExists(all - {x});
      var xs :| Enumerates(xs, all - {x}) && Ascending(xs);
      InsertSorts(xs, x);
      assert Enumerates(Insert(xs, x), all);
    }
  }

  lemma {:induction false} AtMostBoth(a: string, b: string)
    requires AtMost(a, b) && AtMost(b, a)
    ensures a == b
  {
    if a != [] && b != [] {
      AtMostBoth(a[1..], b[1..]);
      assert a == [a[0]] + a[1..] && b == [b[0]] + b[1..];
    }
  }

  lemma NothingListed(xs: seq<string>, all: set<string>)
    requires Enumerates(xs, all)
    ensures xs == [] <==> all == {}
  {
    if xs != [] { assert xs[0] in xs; }
    assert forall x :: x in all <==> x in xs;
  }

  lemma TailEnumerates(xs: seq<string>, all: set<string>)
    requires xs != [] && Enumerates(xs, all)
    ensures xs[0] in all && Enumerates(xs[1..], all - {xs[0]})
    ensures Ascending(xs) ==> Ascending(xs[1..])
  {
    assert xs == [xs[0]] + xs[1..];
    assert forall x :: x in xs <==> x == xs[0] || x in xs[1..];
    assert xs[0] !in xs[1..];
  }

  lemma {:induction false} ListedOnce(xs: seq<string>, all: set<string>)
    requires Enumerates(xs, all)
    ensures |xs| == |all|
  {
    NothingListed(xs, all);
    if xs == [] {
    } else {
      TailEnumerates(xs, all);
      ListedOnce(xs[1..], all - {xs[0]});
    }
  }

  /** There is one ascending list of a set. */
  lemma {:induction false} SortedUnique(xs: seq<string>, ys: seq<string>, all: set<string>)
    requires Enumerates(xs, all) && Ascending(xs)
    requires Enumerates(ys, all) && Ascending(ys)
    ensures xs == ys
    decreases |xs|
  {
    NothingListed(xs, all);
    NothingListed(ys, all);
    if xs == [] {
    } else {
      assert xs[0] in ys && ys[0] in xs;
      LeastFirst(xs, ys[0]);
      LeastFirst(ys, xs[0]);
      AtMostBoth(xs[0], ys[0]);
      TailEnumerates(xs, all);
      TailEnumerates(ys, all);
      SortedUnique(xs[1..], ys[1..], all - {xs[0]});
      assert xs == [xs[0]] + xs[1..] && ys == [ys[0]] + ys[1..];
    }
  }

  /** The elements of a set in ascending order. */
  ghost function SortedOf(all: set<string>): (xs: seq<string>)
    ensures Enumerates(xs, all) && Ascending(xs)
  {
    SortedExists(all);
    var xs :| Enumerates(xs, all) && Ascending(xs);
    xs
  }

  /** The elements of a set in ascending order, as sort.Strings leaves the keys of a Go map. */
  method SortedStrings(all: set<string>) returns (sorted: seq<string>)
    ensures sorted == SortedOf(all)
    ensures Enumerates(sorted, all) && Ascending(sorted)
  {
    sorted := [];
    var rest := all;
    while rest != {}
      invariant rest <= all
      invariant Enumerates(sorted, all - rest) && Ascending(sorted)
      decreases |rest|
    {
      var k :| k in rest;
      InsertSorts(sorted, k);
      sorted := Insert(sorted, k);
      rest := rest - {k};
    }
    SortedUnique(sorted, SortedOf(all), all);
  }

  /** A name that is longer than every name of the set. */
  lemma {:induction false} FreshName(names: set<string>) returns (name: string)
    ensures name !in names && forall n :: n in names ==> |n| < |name|
    decreases |names|
  {
    if names == {} {
      name := "";
    } else {
      var n :| n in names;
      name := FreshName(names - {n});
      name := name + n + "x";
    }
  }

  // ---------------------------------------------------------------------
  // Decimal numbers
  // ---------------------------------------------------------------------

  predicate IsDigit(c: char) { '0' <= c <= '9' }

  function DigitValue(c: char): nat
    requires IsDigit(c)
  {
    c as int - '0' as int
  }

  function Value(digits: string): nat
    requires forall i :: 0 <= i < |digits| ==> IsDigit(digits[i])
  {
    if digits == [] then 0 else 10 * Value(digits[..|digits|-1]) + DigitValue(digits[|digits|-1])
  }

  predicate AllDigits(s: string) {
    forall i :: 0 <= i < |s| ==> IsDigit(s[i])
  }

  /** strconv.Atoi: an optional sign and digits, in the range of a 64-bit integer. */
  function Atoi(s: string): Option<int> {
    var signed := s != [] && (s[0] == '-' || s[0] == '+');
    var body := if signed then s[1..] else s;
    if body == [] || !AllDigits(body) then None
    else
      var v: int := Value(body);
      var n := if signed && s[0] == '-' then -v else v;
      if -MAX_INT - 1 <= n <= MAX_INT then Some(n) else None
  }

  function DigitChar(d: nat): (c: char)
    requires d < 10
    ensures IsDigit(c) && DigitValue(c) == d
  {
    ('0' as int + d) as char
  }

  /** The decimal digits of a natural number, as %d prints them. */
  function Digits(n: nat): (r: string)
    ensures |r| >= 1 && forall i :: 0 <= i < |r| ==> IsDigit(r[i])
  {
    (if n < 10 then "" else Digits(n / 10)) + [DigitChar(n % 10)]
  }

  lemma ValueLast(digits: string, c: char)
    requires IsDigit(c) && forall i :: 0 <= i < |digits| ==> IsDigit(digits[i])
    ensures Value(digits + [c]) == 10 * Value(digits) + DigitValue(c)
  {
    assert (digits + [c])[..|digits|] == digits;
  }

  lemma NoDigits()
    ensures Value("") == 0
  {
  }

  lemma {:induction false} ValueOfDigits(n: nat)
    ensures Value(Digits(n)) == n
  {
    hide Value, DigitChar, DigitValue, IsDigit;
    var front := if n < 10 then "" else Digits(n / 10);
    ValueLast(front, DigitChar(n % 10));
    if n < 10 {
      assert Value(front) == 0 by { NoDigits(); }
    } else {
      ValueOfDigits(n / 10);
    }
  }

  /** Atoi reads what %d prints. */
  lemma AtoiOfDigits(n: nat)
    requires n <= MAX_INT
    ensures Atoi(Digits(n)) == Some(n)
  {
    hide Digits, Value;
    ValueOfDigits(n);
    assert IsDigit(Digits(n)[0]);
  }

  /** A sign before the digits counts. */
  lemma AtoiOfSigned(n: nat)
    requires n <= MAX_INT
    ensures Atoi("+" + Digits(n)) == Some(n)
    ensures Atoi("-" + Digits(n)).Some? && Atoi("-" + Digits(n)).value == -(n as int)
  {
    hide Digits, Value;
    ValueOfDigits(n);
    assert ("-" + Digits(n))[1..] == Digits(n) && ("+" + Digits(n))[1..] == Digits(n);
  }

  /** A sign needs digits after it, and no other characters are allowed. */
  lemma AtoiFails(s: string, i: nat)
    requires s == "" || s == "-" || s == "+" || (i < |s| && !IsDigit(s[i]) && (i > 0 || (s[i] != '-' && s[i] != '+')))
    ensures Atoi(s).None?
  {
    hide Value;
    if |s| == 1 && (s == "-" || s == "+") {
      assert s[1..] == [];
    } else if s != "" {
      var signed := s[0] == '-' || s[0] == '+';
      var body := if signed then s[1..] else s;
      assert if signed then body[i - 1] == s[i] else body[i] == s[i];
      assert !AllDigits(body);
    }
  }

  /** Numbers out of the range of an int are refused. */
  lemma AtoiRange(n: nat)
    requires n > MAX_INT
    ensures Atoi(Digits(n)).None? && (n > MAX_INT + 1 ==> Atoi("-" + Digits(n)).None?)
  {
    hide Digits, Value;
    ValueOfDigits(n);
    assert ("-" + Digits(n))[1..] == Digits(n);
    assert IsDigit(Digits(n)[0]);
  }
}
