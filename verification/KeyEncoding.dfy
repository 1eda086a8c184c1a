/**
 URLEncodedFormEncoder.KeyEncoding.convert: splitting a camel-case key into words for snake
 and kebab case. A key is a sequence of Characters, as Swift steps through it; in ASCII each is a
 single code, except that CR LF is one Character. The search loop is proved to find exactly the boundaries
 that a description position by position names.
 */
module KeyEncoding {
  import opened Wrappers

  type Ascii = c: char | c as int < 128

  datatype Character = Single(c: Ascii) | CrLf

  type Text = seq<Character>

  predicate Upper(c: Character) {
    c.Single? && 'A' <= c.c <= 'Z'
  }

  predicate Lower(c: Character) {
    c.Single? && 'a' <= c.c <= 'z'
  }

  function ToLower(c: Character): (r: Character)
    ensures !Upper(r)
    ensures Upper(c) || Lower(c) ==> Lower(r)
  {
    if Upper(c) then Single((c.c as int + 32) as char) else c
  }

  function Lowercased(s: Text): (r: Text)
    ensures |r| == |s|
  {
    if s == [] then [] else Lowercased(s[..|s| - 1]) + [ToLower(s[|s| - 1])]
  }

  // ---------- Where words begin ----------

  /** An upper-case letter was passed (the first character does not count) and no lower-case letter since. */
  predicate InCapitals(key: Text, i: nat)
    requires i <= |key|
  {
    i > 1 && !Lower(key[i - 1]) && (Upper(key[i - 1]) || InCapitals(key, i - 1))
  }

  /**
   A word begins at a capital outside a group of capitals, and just before the lower-case letter that
   ends a group.
   */
  predicate Boundary(key: Text, i: nat)
    requires i < |key|
  {
    i > 0 && if InCapitals(key, i) then !Lower(key[i]) && i + 1 < |key| && Lower(key[i + 1]) else Upper(key[i])
  }

  /** The key in lower case, with the separator before each boundary. */
  function Converted(key: Text, n: nat, separator: Text): Text
    requires n <= |key|
  {
    if n == 0 then []
    else Converted(key, n - 1, separator) + (if Boundary(key, n - 1) then separator else []) + [ToLower(key[n - 1])]
  }

  // ---------- The loop ----------

  /** `rangeOfCharacter(from:range:)` for the two character sets: the first match from `from` on. */
  function FindUpper(key: Text, from: nat): (r: Option<nat>)
    requires from <= |key|
    ensures r.Some? ==> from <= r.value < |key| && Upper(key[r.value])
    ensures forall j :: from <= j < (if r.Some? then r.value else |key|) ==> !Upper(key[j])
    decreases |key| - from
  {
    if from == |key| then None else if Upper(key[from]) then Some(from) else FindUpper(key, from + 1)
  }

  function FindLower(key: Text, from: nat): (r: Option<nat>)
    requires from <= |key|
    ensures r.Some? ==> from <= r.value < |key| && Lower(key[r.value])
    ensures forall j :: from <= j < (if r.Some? then r.value else |key|) ==> !Lower(key[j])
    decreases |key| - from
  {
    if from == |key| then None else if Lower(key[from]) then Some(from) else FindLower(key, from + 1)
  }

  type Range = (nat, nat)

  /** The ranges are not empty, follow each other without gaps, and cover 0..end. */
  predicate Partition(words: seq<Range>, end: nat) {
    if words == [] then end == 0
    else
      var w := words[|words| - 1];
      w.0 < w.1 == end && Partition(words[..|words| - 1], w.0)
  }

  /** Inside 0..end, words begin at 0 and at the boundaries, and nowhere else. */
  ghost predicate BeginAtBoundaries(key: Text, words: seq<Range>, end: nat)
    requires end <= |key|
  {
    forall i :: 0 < i < end ==> (Boundary(key, i) <==> exists w :: w in words && w.0 == i)
  }

  lemma {:induction false} InCapitalsWithoutUpper(key: Text, from: nat, i: nat)
    requires 0 < from <= i <= |key| && !InCapitals(key, from)
    requires forall j :: from <= j < i ==> !Upper(key[j])
    ensures !InCapitals(key, i)
  {
    if from < i { InCapitalsWithoutUpper(key, from, i - 1); }
  }

  lemma {:induction false} InCapitalsWithoutLower(key: Text, upper: nat, i: nat)
    requires 0 < upper < i <= |key| && Upper(key[upper])
    requires forall j :: upper <= j < i ==> !Lower(key[j])
    ensures InCapitals(key, i)
  {
    if upper + 1 < i { InCapitalsWithoutLower(key, upper, i - 1); }
  }

  /** From the search position up to the next capital there is no boundary. */
  lemma NoBoundaryBefore(key: Text, from: nat, to: nat)
    requires 0 < from <= to <= |key| && !InCapitals(key, from)
    requires forall j :: from <= j < to ==> !Upper(key[j])
    ensures forall i :: from <= i < to ==> !Boundary(key, i)
    ensures !InCapitals(key, to)
  {
    forall i | from <= i <= to ensures !InCapitals(key, i) { InCapitalsWithoutUpper(key, from, i); }
    hide InCapitals;
  }

  /**
   In the group that the capital at `upper` begins, the only other boundary is before the lower-case
   letter ending it.
   */
  lemma GroupBoundaries(key: Text, upper: nat, lower: nat)
    requires 0 < upper < lower <= |key| && Upper(key[upper]) && !InCapitals(key, upper)
    requires forall j :: upper <= j < lower ==> !Lower(key[j])
    requires lower < |key| ==> Lower(key[lower])
    ensures Boundary(key, upper)
    ensures forall i :: upper < i < lower ==> (Boundary(key, i) <==> i + 1 == lower < |key|)
    ensures lower < |key| ==> !Boundary(key, lower) && !InCapitals(key, lower + 1)
  {
    forall i | upper < i <= lower ensures InCapitals(key, i) { InCapitalsWithoutLower(key, upper, i); }
    assert lower < |key| ==> !InCapitals(key, lower + 1);
    hide InCapitals;
  }

  lemma AddWord(key: Text, words: seq<Range>, from: nat, to: nat)
    requires from < to <= |key| && Partition(words, from) && BeginAtBoundaries(key, words, from)
    requires from > 0 ==> Boundary(key, from)
    requires forall i :: from < i < to ==> !Boundary(key, i)
    ensures Partition(words + [(from, to)], to) && BeginAtBoundaries(key, words + [(from, to)], to)
  {
    var more := words + [(from, to)];
    assert more[..|words|] == words;
    WordsInside(words, from);
    hide Partition, Boundary;
    forall i | 0 < i < to ensures Boundary(key, i) <==> exists w :: w in more && w.0 == i {
      assert forall w :: w in more <==> w in words || w == (from, to);
      if i == from { assert (from, to) in more; }
    }
  }

  lemma {:induction false} WordsInside(words: seq<Range>, end: nat)
    requires Partition(words, end)
    ensures forall w :: w in words ==> w.0 < w.1 <= end
  {
    if words != [] {
      WordsInside(words[..|words| - 1], words[|words| - 1].0);
    }
  }

  /** The loop of convert: the collected ranges partition the key, with words beginning exactly at the boundaries. */
  method Words(key: Text) returns (words: seq<Range>)
    requires key != []
    ensures Partition(words, |key|) && BeginAtBoundaries(key, words, |key|)
  {
    hide Partition, BeginAtBoundaries, Boundary, InCapitals, FindUpper, FindLower;
    words := [];
    var wordStart: nat, search: nat := 0, 1;
    FirstWord(key);
    var upper := FindUpper(key, search);
    while upper.Some?
      invariant wordStart < search <= |key| && upper == FindUpper(key, search)
      invariant Partition(words, wordStart) && BeginAtBoundaries(key, words, wordStart)
      invariant wordStart > 0 ==> Boundary(key, wordStart)
      invariant forall i :: wordStart < i < search ==> !Boundary(key, i)
      invariant !InCapitals(key, search)
      decreases |key| - search
    {
      var u := upper.value;
      NoBoundaryBefore(key, search, u);
      AddWord(key, words, wordStart, u);
      words := words + [(wordStart, u)];
      var lower := FindLower(key, u);
      GroupBoundaries(key, u, if lower.Some? then lower.value else |key|);
      if lower.None? {
        wordStart, search := u, |key|;
        break;
      }
      if lower.value == u + 1 {
        wordStart := u;
      } else {
        AddWord(key, words, u, lower.value - 1);
        words := words + [(u, lower.value - 1)];
        wordStart := lower.value - 1;
      }
      search := lower.value + 1;
      upper := FindUpper(key, search);
    }
    if upper.None? { NoBoundaryBefore(key, search, |key|); }
    AddWord(key, words, wordStart, |key|);
    words := words + [(wordStart, |key|)];
  }

  lemma FirstWord(key: Text)
    requires key != []
    ensures Partition([], 0) && BeginAtBoundaries(key, [], 0) && !InCapitals(key, 1)
  {
  }

  // ---------- Joining the words ----------

  /** The words in lower case with the separator between them. */
  function Joined(key: Text, words: seq<Range>, end: nat, separator: Text): Text
    requires end <= |key| && Partition(words, end)
    decreases |words|
  {
    if words == [] then []
    else
      var n := |words| - 1;
      var w := words[n];
      Joined(key, words[..n], w.0, separator) + (if n > 0 then separator else []) + Lowercased(key[w.0..w.1])
  }

  lemma {:induction false} PartitionPrefix(words: seq<Range>, end: nat, n: nat)
    requires Partition(words, end) && n < |words|
    ensures Partition(words[..n + 1], words[n].1) && Partition(words[..n], words[n].0) && words[n].0 < words[n].1 <= end
    ensures n == 0 <==> words[n].0 == 0
    decreases |words|
  {
    var last := |words| - 1;
    assert words[..last + 1] == words;
    if n < last {
      PartitionPrefix(words[..last], words[last].0, n);
      assert words[..last][..n] == words[..n] && words[..last][..n + 1] == words[..n + 1];
    } else if n > 0 {
      PartitionPrefix(words[..last], words[last].0, n - 1);
    }
  }

  lemma {:induction false} LowercasedAppend(s: Text, c: Character)
    ensures Lowercased(s + [c]) == Lowercased(s) + [ToLower(c)]
  {
    assert (s + [c])[..|s|] == s;
  }

  /** A stretch without a boundary in it is copied in lower case. */
  lemma {:induction false} ConvertedWord(key: Text, from: nat, to: nat, separator: Text)
    requires from < to <= |key| && forall i :: from < i < to ==> !Boundary(key, i)
    ensures Converted(key, to, separator)
         == Converted(key, from, separator) + (if Boundary(key, from) then separator else [])
             + Lowercased(key[from..to])
  {
    hide Boundary;
    LowercasedAppend(key[from..to - 1], key[to - 1]);
    assert key[from..to] == key[from..to - 1] + [key[to - 1]];
    if from + 1 < to {
      ConvertedWord(key, from, to - 1, separator);
    } else {
      assert key[from..from] == [] && Lowercased([]) == [];
    }
    hide Lowercased;
  }

  /** Joining the words of the loop gives the converted key. */
  lemma {:induction false} JoinedIsConverted(key: Text, words: seq<Range>, end: nat, separator: Text)
    requires end <= |key| && Partition(words, end) && BeginAtBoundaries(key, words, end)
    ensures Joined(key, words, end, separator) == Converted(key, end, separator)
    decreases |words|
  {
    hide Boundary, Lowercased;
    if words != [] {
      var n := |words| - 1;
      var w := words[n];
      PartitionPrefix(words, end, n);
      DropLastWord(key, words, end);
      JoinedIsConverted(key, words[..n], w.0, separator);
      ConvertedWord(key, w.0, end, separator);
      hide Converted, Joined;
      FirstIsNoBoundary(key, w.0);
      assert n > 0 <==> Boundary(key, w.0);
    }
  }

  lemma FirstIsNoBoundary(key: Text, i: nat)
    requires i < |key|
    ensures i == 0 ==> !Boundary(key, i)
  {
  }

  lemma DropLastWord(key: Text, words: seq<Range>, end: nat)
    requires words != [] && end <= |key| && Partition(words, end) && BeginAtBoundaries(key, words, end)
    ensures var w := words[|words| - 1]; BeginAtBoundaries(key, words[..|words| - 1], w.0)
    ensures var w := words[|words| - 1]; w.0 > 0 ==> Boundary(key, w.0)
    ensures var w := words[|words| - 1]; forall i :: w.0 < i < end ==> !Boundary(key, i)
  {
    var n := |words| - 1;
    var w := words[n];
    WordsInside(words[..n], w.0);
    hide Partition, Boundary;
    assert words == words[..n] + [w];
    assert forall v :: v in words <==> v in words[..n] || v == w;
  }

  /** convert. */
  method Convert(key: Text, separator: Text) returns (result: Text)
    ensures result == Converted(key, |key|, separator)
  {
    if key == [] { return key; }
    hide Boundary, InCapitals, Converted, BeginAtBoundaries, Lowercased;
    var words := Words(key);
    result := [];
    JoinedNothing(key, separator);
    for i := 0 to |words|
      invariant Partition(words[..i], EndOf(words, i)) && EndOf(words, i) <= |key|
      invariant result == Joined(key, words[..i], EndOf(words, i), separator)
    {
      PartitionPrefix(words, |key|, i);
      if i > 0 {
        PartitionPrefix(words, |key|, i - 1);
        SameEnd(words, i);
        result := result + separator;
      }
      result := result + Lowercased(key[words[i].0..words[i].1]);
      JoinedNext(key, words, i, separator);
    }
    assert words[..|words|] == words;
    JoinedIsConverted(key, words, |key|, separator);
  }

  /** Where the first n words end. */
  function EndOf(words: seq<Range>, n: nat): nat
    requires n <= |words|
  {
    if n == 0 then 0 else words[n - 1].1
  }

  lemma JoinedNothing(key: Text, separator: Text)
    ensures Partition([], 0) && Joined(key, [], 0, separator) == []
  {
  }

  lemma SameEnd(words: seq<Range>, n: nat)
    requires 0 < n < |words| && Partition(words[..n], words[n].0)
    ensures words[n - 1].1 == words[n].0
  {
  }

  lemma JoinedNext(key: Text, words: seq<Range>, n: nat, separator: Text)
    requires n < |words| && Partition(words[..n + 1], words[n].1) && Partition(words[..n], words[n].0)
    requires words[n].0 < words[n].1 <= |key|
    ensures Joined(key, words[..n + 1], words[n].1, separator)
         == Joined(key, words[..n], words[n].0, separator) + (if n > 0 then separator else [])
             + Lowercased(key[words[n].0..words[n].1])
  {
    assert words[..n + 1][..n] == words[..n];
    hide Lowercased, Partition;
  }

  // ---------- Properties of the converted key ----------

  /** Conversion only lowers letters and inserts separators: without separators the letters are those of the key. */
  lemma {:induction false} ConvertedKeepsLetters(key: Text, n: nat)
    requires n <= |key|
    ensures Converted(key, n, []) == Lowercased(key[..n])
  {
    hide Boundary;
    if n > 0 {
      ConvertedKeepsLetters(key, n - 1);
      assert key[..n][..n - 1] == key[..n - 1];
    }
  }

  predicate NoCapitals(s: Text) {
    forall i :: 0 <= i < |s| ==> !Upper(s[i])
  }

  lemma {:induction false} ConvertedNoCapitals(key: Text, n: nat, separator: Text)
    requires n <= |key| && NoCapitals(separator)
    ensures NoCapitals(Converted(key, n, separator))
  {
    hide Boundary, Upper;
    if n > 0 { ConvertedNoCapitals(key, n - 1, separator); }
  }

  lemma {:induction false} NoCapitalsFixed(s: Text, n: nat, separator: Text)
    requires n <= |s| && NoCapitals(s)
    ensures Converted(s, n, separator) == s[..n] && !InCapitals(s, n)
  {
    if n > 0 {
      NoCapitalsFixed(s, n - 1, separator);
      assert s[..n] == s[..n - 1] + [s[n - 1]];
      assert !Boundary(s, n - 1);
      hide Converted;
      ConvertedStep(s, n - 1, separator);
    }
  }

  lemma ConvertedStep(s: Text, n: nat, separator: Text)
    requires n < |s| && !Boundary(s, n)
    ensures Converted(s, n + 1, separator) == Converted(s, n, separator) + [ToLower(s[n])]
  {
    hide Boundary;
  }

  /** A converted key is a fixed point: converting it again, with any separator, changes nothing. */
  lemma ConvertTwice(key: Text, separator: Text, again: Text)
    requires NoCapitals(separator)
    ensures var r := Converted(key, |key|, separator); Converted(r, |r|, again) == r
  {
    hide Converted;
    ConvertedNoCapitals(key, |key|, separator);
    var r := Converted(key, |key|, separator);
    NoCapitalsFixed(r, |r|, again);
    assert r[..|r|] == r;
  }

  // ---------- Letters ----------

  const CAPITALS: seq<Ascii> := "ABCDEFGHIJKLMNOPQRSTUVWXYZ"
  const SMALL: seq<Ascii> := "abcdefghijklmnopqrstuvwxyz"

  /** A capital becomes the small letter in its place in the alphabet, and nothing else changes. */
  lemma SameLetter(c: Character)
    ensures Upper(c) <==> exists k :: 0 <= k < 26 && c == Single(CAPITALS[k])
    ensures forall k :: 0 <= k < 26 && c == Single(CAPITALS[k]) ==> ToLower(c) == Single(SMALL[k])
    ensures !Upper(c) ==> ToLower(c) == c
  {
    assert |CAPITALS| == 26 && |SMALL| == 26;
    assert forall k :: 0 <= k < 26 ==> CAPITALS[k] as int == 65 + k && SMALL[k] as int == 97 + k;
    if Upper(c) {
      assert c == Single(CAPITALS[c.c as int - 65]);
    }
  }

  // ---------- The documented examples ----------

  function FromAscii(s: seq<Ascii>): (r: Text)
    ensures |r| == |s| && forall i :: 0 <= i < |s| ==> r[i] == Single(s[i])
  {
    seq(|s|, i requires 0 <= i < |s| => Single(s[i]))
  }

  /** A key of three words that begin at 0, x and y. */
  lemma ThreeWords(key: Text, x: nat, y: nat, separator: Text)
    requires 0 < x < y < |key| && forall i :: 0 < i < |key| ==> (Boundary(key, i) <==> i == x || i == y)
    ensures Converted(key, |key|, separator)
         == Lowercased(key[..x]) + separator + Lowercased(key[x..y]) + separator + Lowercased(key[y..])
  {
    assert !Boundary(key, 0) && Converted(key, 0, separator) == [];
    hide Boundary, Converted, Lowercased;
    ConvertedWord(key, 0, x, separator);
    ConvertedWord(key, x, y, separator);
    ConvertedWord(key, y, |key|, separator);
    assert key[0..x] == key[..x] && key[y..|key|] == key[y..];
  }

  /** The words of oneTwoThree begin at its capitals. */
  lemma DocumentedKey()
    ensures var key := FromAscii("oneTwoThree");
      Converted(key, |key|, FromAscii("_")) ==
        Lowercased(key[..3]) + FromAscii("_") + Lowercased(key[3..6]) + FromAscii("_") + Lowercased(key[6..])
  {
    var key := FromAscii("oneTwoThree");
    assert !InCapitals(key, 3) && !InCapitals(key, 5) && !InCapitals(key, 6) && !InCapitals(key, 8);
    hide InCapitals, Converted, Lowercased;
    ThreeWords(key, 3, 6, FromAscii("_"));
  }

  /** Those of myURLProperty are my, URL and Property: a group of capitals is one word but for its last letter. */
  lemma DocumentedAbbreviation()
    ensures var key := FromAscii("myURLProperty");
      Converted(key, |key|, FromAscii("_")) ==
        Lowercased(key[..2]) + FromAscii("_") + Lowercased(key[2..5]) + FromAscii("_") + Lowercased(key[5..])
  {
    var key := FromAscii("myURLProperty");
    GroupBoundaries(key, 2, 6);
    NoBoundaryBefore(key, 7, 13);
    assert !Boundary(key, 1);
    hide InCapitals, Boundary, Converted, Lowercased;
    ThreeWords(key, 2, 5, FromAscii("_"));
  }
}
