/** The message-filter rewrite the session applies at start-up when no display field refers to
    the action id: the filter is split at commas, each name trimmed, the actions filter dropped
    and the rest joined with ", ". Line numbers refer to src/app/app.component.ts. */
module Filter {

  /** The characters `String.prototype.trim` strips: ECMAScript white space and line terminators. */
  predicate IsSpace(c: char) {
    || c == '\t' || c == '\n' || c == '\U{000B}' || c == '\U{000C}' || c == '\r' || c == ' '
    || c == '\U{00A0}' || c == '\U{1680}' || ('\U{2000}' <= c <= '\U{200A}')
    || c == '\U{2028}' || c == '\U{2029}' || c == '\U{202F}' || c == '\U{205F}'
    || c == '\U{3000}' || c == '\U{FEFF}'
  }

  /** How many white-space characters `s` starts with. */
  function LeadingSpaces(s: string): (n: nat)
    ensures n <= |s|
    ensures n == |s| || !IsSpace(s[n])
  {
    if |s| > 0 && IsSpace(s[0]) then 1 + LeadingSpaces(s[1..]) else 0
  }

  /** How many white-space characters `s` ends with. */
  function TrailingSpaces(s: string): (n: nat)
    ensures n <= |s|
    ensures n == |s| || !IsSpace(s[|s| - n - 1])
  {
    if |s| > 0 && IsSpace(s[|s| - 1]) then 1 + TrailingSpaces(s[..|s| - 1]) else 0
  }

  /** Everything `LeadingSpaces` counts is white space. */
  lemma {:induction false} LeadingSpacesAreSpaces(s: string)
    ensures forall k :: 0 <= k < LeadingSpaces(s) ==> IsSpace(s[k])
  {
    if |s| > 0 && IsSpace(s[0]) {
      LeadingSpacesAreSpaces(s[1..]);
      forall k | 1 <= k < LeadingSpaces(s) ensures IsSpace(s[k]) {
        assert s[k] == s[1..][k - 1];
      }
    }
  }

  /** Everything `TrailingSpaces` counts is white space. */
  lemma {:induction false} TrailingSpacesAreSpaces(s: string)
    ensures forall k :: |s| - TrailingSpaces(s) <= k < |s| ==> IsSpace(s[k])
  {
    if |s| > 0 && IsSpace(s[|s| - 1]) {
      var p := s[..|s| - 1];
      TrailingSpacesAreSpaces(p);
      forall k | |s| - TrailingSpaces(s) <= k < |s| - 1 ensures IsSpace(s[k]) {
        assert s[k] == p[k];
      }
    }
  }

  /** Neither end of `s` is white space. */
  predicate Trimmed(s: string) {
    |s| == 0 || (!IsSpace(s[0]) && !IsSpace(s[|s| - 1]))
  }

  /** `String.prototype.trim`: the white space at the front, then that at the back of the
      rest, is cut off. The result is a slice of `s` with nothing but white space before and
      behind it, and with no white space at either end, which fixes it. */
  function Trim(s: string): (r: string)
    ensures Trimmed(r)
    ensures |r| <= |s|
    ensures exists a, b :: 0 <= a <= b <= |s| && r == s[a..b]
              && (forall k :: 0 <= k < a ==> IsSpace(s[k]))
              && (forall k :: b <= k < |s| ==> IsSpace(s[k]))
  {
    var a := LeadingSpaces(s);
    var t := s[a..];
    var b := |s| - TrailingSpaces(t);
    LeadingSpacesAreSpaces(s);
    TrailingSpacesAreSpaces(t);
    assert forall k :: b <= k < |s| ==> IsSpace(s[k]) by {
      forall k | b <= k < |s| ensures IsSpace(s[k]) {
        assert s[k] == t[k - a];
      }
    }
    s[a..b]
  }

  /** A character `s` does not hold is not in its trim either. */
  lemma TrimAddsNothing(s: string, c: char)
    requires c !in s
    ensures c !in Trim(s)
  {
    var a := LeadingSpaces(s);
    var r := Trim(s);
    forall j | 0 <= j < |r| ensures r[j] != c {
      assert r[j] == s[a + j];
    }
  }

  /** A string with no white space at either end is its own trim. */
  lemma TrimOfTrimmed(s: string)
    requires Trimmed(s)
    ensures Trim(s) == s
  {
    assert LeadingSpaces(s) == 0;
    assert s[0..] == s;
    assert TrailingSpaces(s) == 0;
  }

  /** A white-space character in front adds one to the leading white space. */
  lemma LeadingSpacesCons(c: char, s: string)
    requires IsSpace(c)
    ensures LeadingSpaces([c] + s) == 1 + LeadingSpaces(s)
  {
    assert ([c] + s)[1..] == s;
  }

  /** Slicing behind a first character is slicing the rest. */
  lemma SliceBehindHead(c: char, s: string, i: nat, j: nat)
    requires i <= j <= |s|
    ensures ([c] + s)[i + 1..j + 1] == s[i..j]
  {
  }

  /** White space in front of a string does not survive the trim. */
  lemma TrimSkipsLeadingSpace(c: char, s: string)
    requires IsSpace(c)
    ensures Trim([c] + s) == Trim(s)
  {
    var t := [c] + s;
    var a := LeadingSpaces(s);
    LeadingSpacesCons(c, s);
    SliceBehindHead(c, s, a, |s|);
    var b := TrailingSpaces(s[a..]);
    SliceBehindHead(c, s, a, |s| - b);
  }

  /** `String.prototype.join(sep)`. */
  function Join(items: seq<string>, sep: string): string {
    if |items| == 0 then ""
    else if |items| == 1 then items[0]
    else items[0] + sep + Join(items[1..], sep)
  }

  /** `String.prototype.split(sep)` for a one-character separator: the pieces hold no
      separator and joining them back gives the string again. */
  function Split(s: string, sep: char): (r: seq<string>)
    ensures |r| >= 1
    ensures forall i :: 0 <= i < |r| ==> sep !in r[i]
    ensures Join(r, [sep]) == s
  {
    if |s| == 0 then [""]
    else
      var rest := Split(s[1..], sep);
      assert s == [s[0]] + s[1..];
      if s[0] == sep then
        [""] + rest
      else
        var r := [[s[0]] + rest[0]] + rest[1..];
        assert r[1..] == rest[1..];
        r
  }

  /** A string with no separator is split into itself alone. */
  lemma {:induction false} SplitWithoutSeparator(s: string, sep: char)
    requires sep !in s
    ensures Split(s, sep) == [s]
    decreases |s|
  {
    if |s| > 0 {
      SplitWithoutSeparator(s[1..], sep);
      assert s == [s[0]] + s[1..];
    }
  }

  /** Splitting at the first separator: the piece in front comes off first. */
  lemma {:induction false} SplitAtSeparator(a: string, b: string, sep: char)
    requires sep !in a
    ensures Split(a + [sep] + b, sep) == [a] + Split(b, sep)
    decreases |a|
  {
    var s := a + [sep] + b;
    if |a| == 0 {
      assert s[1..] == b;
    } else {
      assert s[1..] == a[1..] + [sep] + b;
      SplitAtSeparator(a[1..], b, sep);
      assert a == [a[0]] + a[1..];
    }
  }

  /** Splitting a joined list gives the list back, so `Split` is the inverse of `Join`. */
  lemma {:induction false} SplitJoin(items: seq<string>, sep: char)
    requires |items| >= 1
    requires forall i :: 0 <= i < |items| ==> sep !in items[i]
    ensures Split(Join(items, [sep]), sep) == items
    decreases |items|
  {
    if |items| == 1 {
      SplitWithoutSeparator(items[0], sep);
    } else {
      SplitJoin(items[1..], sep);
      assert items[0] + [sep] + Join(items[1..], [sep]) == Join(items, [sep]);
      SplitAtSeparator(items[0], Join(items[1..], [sep]), sep);
      assert items == [items[0]] + items[1..];
    }
  }

  /** Each piece trimmed. */
  function TrimAll(items: seq<string>): (r: seq<string>)
    ensures |r| == |items|
    ensures forall i :: 0 <= i < |r| ==> r[i] == Trim(items[i])
  {
    if |items| == 0 then [] else [Trim(items[0])] + TrimAll(items[1..])
  }

  /** The pieces different from `drop`, in their order. */
  function Without(items: seq<string>, drop: string): (r: seq<string>)
    ensures forall x :: x in r <==> x in items && x != drop
    ensures multiset(r) == multiset(items)[drop := 0]
    ensures |r| <= |items|
  {
    if |items| == 0 then []
    else
      assert items == [items[0]] + items[1..];
      if items[0] == drop then Without(items[1..], drop)
      else [items[0]] + Without(items[1..], drop)
  }

  /** Dropping a name from two lists joined is dropping it from each, keeping their order. */
  lemma {:induction false} WithoutAppend(a: seq<string>, b: seq<string>, drop: string)
    ensures Without(a + b, drop) == Without(a, drop) + Without(b, drop)
  {
    if |a| > 0 {
      WithoutAppend(a[1..], b, drop);
      assert (a + b)[1..] == a[1..] + b;
    } else {
      assert a + b == b;
    }
  }

  /** The filter names a filter string lists, as the rewrite reads them. */
  function Names(filter: string): (r: seq<string>)
    ensures |r| >= 1
    ensures forall i :: 0 <= i < |r| ==> ',' !in r[i]
    ensures forall i :: 0 <= i < |r| ==> Trimmed(r[i])
  {
    var pieces := Split(filter, ',');
    var r := TrimAll(pieces);
    assert forall i :: 0 <= i < |r| ==> ',' !in r[i] && Trimmed(r[i]) by {
      forall i | 0 <= i < |r| ensures ',' !in r[i] && Trimmed(r[i]) {
        assert ',' !in pieces[i];
        TrimAddsNothing(pieces[i], ',');
        assert r[i] == Trim(pieces[i]);
      }
    }
    r
  }

  /** Lines 99-102: drop the actions filter from the list and join the rest with ", ". */
  function Rewrite(filter: string, actionFilter: string): string {
    Join(Without(Names(filter), actionFilter), ", ")
  }

  /** A filter naming one thing, which is not the actions filter, only loses its white space;
      one naming just the actions filter becomes empty. */
  lemma RewriteSingleName(filter: string, actionFilter: string)
    requires ',' !in filter
    ensures Trim(filter) != actionFilter ==> Rewrite(filter, actionFilter) == Trim(filter)
    ensures Trim(filter) == actionFilter ==> Rewrite(filter, actionFilter) == ""
  {
    SplitWithoutSeparator(filter, ',');
  }

  lemma TrimAllCons(a: string, b: seq<string>)
    ensures TrimAll([a] + b) == [Trim(a)] + TrimAll(b)
  {
    assert ([a] + b)[1..] == b;
  }

  /** A blank in front of a filter string does not change the names it lists. */
  lemma NamesSkipLeadingSpace(t: string)
    ensures Names([' '] + t) == Names(t)
  {
    var pieces := Split(t, ',');
    assert ([' '] + t)[1..] == t;
    var spaced := Split([' '] + t, ',');
    assert spaced == [[' '] + pieces[0]] + pieces[1..];
    TrimSkipsLeadingSpace(' ', pieces[0]);
    var a, b := TrimAll(spaced), TrimAll(pieces);
    assert |a| == |b|;
    forall i | 0 <= i < |a| ensures a[i] == b[i] {
      if i > 0 {
        assert spaced[i] == pieces[i];
      }
    }
  }

  /** Joining trimmed comma-free names with ", " and reading the names back gives them again. */
  lemma {:induction false} NamesOfJoin(items: seq<string>)
    requires |items| >= 1
    requires forall i :: 0 <= i < |items| ==> ',' !in items[i] && Trimmed(items[i])
    ensures Names(Join(items, ", ")) == items
    decreases |items|
  {
    if |items| == 1 {
      SplitWithoutSeparator(items[0], ',');
      TrimOfTrimmed(items[0]);
    } else {
      var rest := items[1..];
      var tail := Join(rest, ", ");
      assert Join(items, ", ") == items[0] + [','] + ([' '] + tail);
      calc {
        Names(Join(items, ", "));
        TrimAll(Split(items[0] + [','] + ([' '] + tail), ','));
        { SplitAtSeparator(items[0], [' '] + tail, ','); }
        TrimAll([items[0]] + Split([' '] + tail, ','));
        { TrimAllCons(items[0], Split([' '] + tail, ',')); }
        [Trim(items[0])] + Names([' '] + tail);
        { TrimOfTrimmed(items[0]); NamesSkipLeadingSpace(tail); }
        [items[0]] + Names(tail);
        { NamesOfJoin(rest); }
        [items[0]] + rest;
      }
      assert items == [items[0]] + rest;
    }
  }

  /** The rewritten filter lists exactly the names of the original other than the actions
      filter, in their order, when any remain. */
  lemma RewriteNames(filter: string, actionFilter: string)
    requires |Without(Names(filter), actionFilter)| >= 1
    ensures Names(Rewrite(filter, actionFilter)) == Without(Names(filter), actionFilter)
  {
    var kept := Without(Names(filter), actionFilter);
    forall i | 0 <= i < |kept| ensures ',' !in kept[i] && Trimmed(kept[i]) {
      assert kept[i] in Names(filter);
    }
    NamesOfJoin(kept);
  }

  /** Rewriting twice changes nothing more: the actions filter is gone after the first pass. */
  lemma RewriteIdempotent(filter: string, actionFilter: string)
    ensures Rewrite(Rewrite(filter, actionFilter), actionFilter) == Rewrite(filter, actionFilter)
    ensures actionFilter !in Names(Rewrite(filter, actionFilter)) || actionFilter == ""
  {
    if |Without(Names(filter), actionFilter)| >= 1 {
      RewriteKeepingNames(filter, actionFilter);
    } else {
      RewriteKeepingNothing(filter, actionFilter);
    }
  }

  lemma RewriteKeepingNames(filter: string, actionFilter: string)
    requires |Without(Names(filter), actionFilter)| >= 1
    ensures Rewrite(Rewrite(filter, actionFilter), actionFilter) == Rewrite(filter, actionFilter)
    ensures actionFilter !in Names(Rewrite(filter, actionFilter))
  {
    var kept := Without(Names(filter), actionFilter);
    RewriteNames(filter, actionFilter);
    WithoutAbsent(kept, actionFilter);
  }

  lemma RewriteKeepingNothing(filter: string, actionFilter: string)
    requires |Without(Names(filter), actionFilter)| == 0
    ensures Rewrite(Rewrite(filter, actionFilter), actionFilter) == Rewrite(filter, actionFilter) == ""
    ensures actionFilter !in Names(Rewrite(filter, actionFilter)) || actionFilter == ""
  {
    EmptyFilterNames();
    if actionFilter == "" {
      assert Without([""], actionFilter) == Without([], actionFilter);
    } else {
      assert Without([""], actionFilter) == [""] + Without([], actionFilter);
    }
  }

  /** The empty filter string lists one empty name. */
  lemma EmptyFilterNames()
    ensures Names("") == [""]
  {
    assert Split("", ',') == [""];
    assert Trim("") == "";
    assert TrimAll([""]) == [Trim("")] + TrimAll([]);
  }

  /** Dropping a name that is not listed keeps the list as it is. */
  lemma {:induction false} WithoutAbsent(items: seq<string>, drop: string)
    requires drop !in items
    ensures Without(items, drop) == items
  {
    if |items| > 0 {
      WithoutAbsent(items[1..], drop);
      assert items == [items[0]] + items[1..];
    }
  }
}
