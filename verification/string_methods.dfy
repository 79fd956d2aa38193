/** Model of the one-line string helpers: splitting and joining, substring
    search and counting, the question test, stripping, replacement,
    capitalisation and the two name formatters.

    Strings are sequences of characters. Case mapping and whitespace are
    those of ASCII.
 */
module StringMethods {

  // ---------------------------------------------------------------------
  // Characters
  // ---------------------------------------------------------------------

  /** ASCII whitespace as `str.strip` removes it: tab, line feed, vertical
      tab, form feed, carriage return, the four separators 0x1C..0x1F, and
      space. */
  predicate IsSpace(c: char) {
    c == ' ' || 9 <= c as int <= 13 || 28 <= c as int <= 31
  }

  predicate IsUpper(c: char) { 'A' <= c <= 'Z' }

  predicate IsLower(c: char) { 'a' <= c <= 'z' }

  /** ASCII upper-casing: lower-case letters move up, all else stays. */
  function Upper(c: char): (u: char)
    ensures !IsLower(u)
    ensures IsLower(c) <==> IsUpper(u) && u != c
    ensures IsLower(c) ==> u as int - 'A' as int == c as int - 'a' as int
    ensures !IsLower(c) ==> u == c
  {
    if IsLower(c) then (c as int - 32) as char else c
  }

  /** ASCII lower-casing: upper-case letters move down, all else stays. */
  function Lower(c: char): (l: char)
    ensures !IsUpper(l)
    ensures IsUpper(c) <==> IsLower(l) && l != c
    ensures IsUpper(c) ==> l as int - 'a' as int == c as int - 'A' as int
    ensures !IsUpper(c) ==> l == c
  {
    if IsUpper(c) then (c as int + 32) as char else c
  }

  /** Upper- and lower-casing agree once both sides are lower-cased. */
  lemma CaseFolding(c: char)
    ensures Lower(Upper(c)) == Lower(c)
    ensures Upper(Lower(c)) == Upper(c)
  {
  }

  // ---------------------------------------------------------------------
  // Splitting and joining (add_comma)
  // ---------------------------------------------------------------------

  /** `s.split(sep)` for a one-character separator: the fields between
      separators, empty fields kept, so there is always one more field
      than separators. */
  function Split(s: string, sep: char): (parts: seq<string>)
    ensures |parts| >= 1
    ensures forall i :: 0 <= i < |parts| ==> sep !in parts[i]
    decreases |s|
  {
    if s == [] then [[]]
    else
      var rest := Split(s[1..], sep);
      if s[0] == sep then [[]] + rest
      else [[s[0]] + rest[0]] + rest[1..]
  }

  /** There is one more field than there are separators. */
  lemma {:induction false} SplitCount(s: string, sep: char)
    ensures |Split(s, sep)| == multiset(s)[sep] + 1
    decreases |s|
  {
    if s != [] {
      assert s == [s[0]] + s[1..];
      SplitCount(s[1..], sep);
    }
  }

  /** `sep.join(parts)`: the parts with `sep` between neighbours. */
  function Join(parts: seq<string>, sep: string): (r: string)
    decreases |parts|
  {
    if parts == [] then []
    else if |parts| == 1 then parts[0]
    else parts[0] + sep + Join(parts[1..], sep)
  }

  /** Joining one more part adds the separator and that part at the end. */
  lemma {:induction false} JoinAppend(parts: seq<string>, p: string, sep: string)
    requires parts != []
    ensures Join(parts + [p], sep) == Join(parts, sep) + sep + p
    decreases |parts|
  {
    if |parts| == 1 {
      assert (parts + [p])[1..] == [p];
    } else {
      JoinAppend(parts[1..], p, sep);
      assert (parts + [p])[1..] == parts[1..] + [p];
    }
  }

  /** `add_comma`: split on single spaces, join with comma and space. */
  function AddComma(s: string): (r: string)
  {
    Join(Split(s, ' '), ", ")
  }

  // ---------------------------------------------------------------------
  // Substring search (belongs_to)
  // ---------------------------------------------------------------------

  /** `w` occurs in `s` starting at index `i`. */
  ghost predicate OccursAt(s: string, w: string, i: int) {
    0 <= i && i + |w| <= |s| && s[i..i + |w|] == w
  }

  /** `w in s`, scanning the start positions from left to right. */
  function BelongsTo(s: string, w: string): (r: bool)
    decreases |s|
  {
    if |w| > |s| then false
    else if s[..|w|] == w then true
    else BelongsTo(s[1..], w)
  }

  /** `w in s` holds exactly when `w` occurs somewhere in `s`. */
  lemma {:induction false} BelongsToIff(s: string, w: string)
    ensures BelongsTo(s, w) <==> exists i :: OccursAt(s, w, i)
    decreases |s|
  {
    if |w| > |s| {
      forall i ensures !OccursAt(s, w, i) { }
    } else if s[..|w|] == w {
      assert OccursAt(s, w, 0);
    } else {
      BelongsToIff(s[1..], w);
      if exists i :: OccursAt(s[1..], w, i) {
        var i :| OccursAt(s[1..], w, i);
        assert s[i + 1..i + 1 + |w|] == s[1..][i..i + |w|];
        assert OccursAt(s, w, i + 1);
      }
      if exists i :: OccursAt(s, w, i) {
        var i :| OccursAt(s, w, i);
        assert i != 0;
        assert s[1..][i - 1..i - 1 + |w|] == s[i..i + |w|];
        assert OccursAt(s[1..], w, i - 1);
      }
    }
  }

  // ---------------------------------------------------------------------
  // Counting (count_repetition)
  // ---------------------------------------------------------------------

  /** `s.count(sub)`: non-overlapping occurrences found scanning left to
      right, each match resuming after its end. The empty substring matches
      at every one of the `|s| + 1` positions. */
  function CountRepetition(s: string, sub: string): (n: nat)
    decreases |s|
  {
    if sub == [] then |s| + 1
    else if |s| < |sub| then 0
    else if s[..|sub|] == sub then 1 + CountRepetition(s[|sub|..], sub)
    else CountRepetition(s[1..], sub)
  }

  /** Non-overlapping occurrences of a non-empty substring cannot take up
      more room than the string has. */
  lemma {:induction false} CountBound(s: string, sub: string)
    requires sub != []
    ensures CountRepetition(s, sub) * |sub| <= |s|
    decreases |s|
  {
    if |s| >= |sub| {
      if s[..|sub|] == sub {
        var rest := s[|sub|..];
        CountBound(rest, sub);
        var n := CountRepetition(rest, sub);
        MulSucc(n, |sub|);
      } else {
        CountBound(s[1..], sub);
      }
    }
  }

  /** No occurrence of `sub` starts at any index in `lo..hi - 1`. */
  ghost predicate NoOccurrence(s: string, sub: string, lo: int, hi: int) {
    forall i :: lo <= i < hi ==> !OccursAt(s, sub, i)
  }

  /** `ps` are the start positions a left-to-right scan from `lo` finds:
      `ps[0]` is the first occurrence at or after `lo`, the scan resumes
      right after each match, and after the last match there is none. */
  ghost predicate GreedyMatches(s: string, sub: string, lo: int, ps: seq<int>)
    decreases |ps|
  {
    if ps == [] then NoOccurrence(s, sub, lo, |s| + 1)
    else
      && lo <= ps[0]
      && OccursAt(s, sub, ps[0])
      && NoOccurrence(s, sub, lo, ps[0])
      && GreedyMatches(s, sub, ps[0] + |sub|, ps[1..])
  }

  /** The scan from `lo` finds one sequence of matches only. */
  lemma {:induction false} GreedyMatchesUnique(s: string, sub: string, lo: int, ps: seq<int>, qs: seq<int>)
    requires GreedyMatches(s, sub, lo, ps) && GreedyMatches(s, sub, lo, qs)
    ensures ps == qs
    decreases |ps|
  {
    if ps != [] && qs != [] {
      assert ps[0] == qs[0];
      GreedyMatchesUnique(s, sub, ps[0] + |sub|, ps[1..], qs[1..]);
      assert ps == [ps[0]] + ps[1..];
      assert qs == [qs[0]] + qs[1..];
    }
  }

  /** A scan may start one position earlier when no match starts there. */
  lemma GreedyMatchesEarlier(s: string, sub: string, lo: int, ps: seq<int>)
    requires !OccursAt(s, sub, lo) && GreedyMatches(s, sub, lo + 1, ps)
    ensures GreedyMatches(s, sub, lo, ps)
  {
  }

  /** A match at `lo` is the first one the scan from `lo` finds. */
  lemma GreedyMatchesAt(s: string, sub: string, lo: int, ps: seq<int>)
    requires OccursAt(s, sub, lo) && GreedyMatches(s, sub, lo + |sub|, ps)
    ensures GreedyMatches(s, sub, lo, [lo] + ps)
  {
    assert ([lo] + ps)[1..] == ps;
  }

  /** One step of `count` on the suffix starting at `j`, in terms of `s`. */
  lemma CountStep(s: string, sub: string, j: int)
    requires sub != [] && 0 <= j && j + |sub| <= |s|
    ensures OccursAt(s, sub, j) ==>
      CountRepetition(s[j..], sub) == 1 + CountRepetition(s[j + |sub|..], sub)
    ensures !OccursAt(s, sub, j) ==>
      CountRepetition(s[j..], sub) == CountRepetition(s[j + 1..], sub)
  {
    var t := s[j..];
    assert t[..|sub|] == s[j..j + |sub|];
    assert t[|sub|..] == s[j + |sub|..];
    assert t[1..] == s[j + 1..];
  }

  /** The start positions of the matches a scan from `j` finds. */
  ghost function ScanFrom(s: string, sub: string, j: int): (ps: seq<int>)
    requires sub != [] && 0 <= j <= |s|
    decreases |s| - j
  {
    if |s| - j < |sub| then []
    else if OccursAt(s, sub, j) then [j] + ScanFrom(s, sub, j + |sub|)
    else ScanFrom(s, sub, j + 1)
  }

  /** The scan finds exactly the greedy matches. */
  lemma {:induction false} ScanFromGreedy(s: string, sub: string, j: int)
    requires sub != [] && 0 <= j <= |s|
    ensures GreedyMatches(s, sub, j, ScanFrom(s, sub, j))
    decreases |s| - j
  {
    if |s| - j >= |sub| {
      if OccursAt(s, sub, j) {
        ScanFromGreedy(s, sub, j + |sub|);
        GreedyMatchesAt(s, sub, j, ScanFrom(s, sub, j + |sub|));
      } else {
        ScanFromGreedy(s, sub, j + 1);
        GreedyMatchesEarlier(s, sub, j, ScanFrom(s, sub, j + 1));
      }
    }
  }

  /** What `count` returns for the suffix starting at `j` is the number of
      matches the scan from `j` finds. */
  lemma {:induction false} CountFrom(s: string, sub: string, j: int)
    requires sub != [] && 0 <= j <= |s|
    ensures |ScanFrom(s, sub, j)| == CountRepetition(s[j..], sub)
    decreases |s| - j, 1
  {
    if |s| - j < |sub| {
      assert ScanFrom(s, sub, j) == [];
    } else if OccursAt(s, sub, j) {
      CountFromMatch(s, sub, j);
    } else {
      CountFromSkip(s, sub, j);
    }
  }

  /** `CountFrom` when a match starts at `j`. */
  lemma {:induction false} CountFromMatch(s: string, sub: string, j: int)
    requires sub != [] && 0 <= j && j + |sub| <= |s| && OccursAt(s, sub, j)
    ensures |ScanFrom(s, sub, j)| == CountRepetition(s[j..], sub)
    decreases |s| - j, 0
  {
    CountStep(s, sub, j);
    CountFrom(s, sub, j + |sub|);
    assert ScanFrom(s, sub, j) == [j] + ScanFrom(s, sub, j + |sub|);
  }

  /** `CountFrom` when no match starts at `j`. */
  lemma {:induction false} CountFromSkip(s: string, sub: string, j: int)
    requires sub != [] && 0 <= j && j + |sub| <= |s| && !OccursAt(s, sub, j)
    ensures |ScanFrom(s, sub, j)| == CountRepetition(s[j..], sub)
    decreases |s| - j, 0
  {
    CountStep(s, sub, j);
    CountFrom(s, sub, j + 1);
    assert ScanFrom(s, sub, j) == ScanFrom(s, sub, j + 1);
  }

  /** `count` of a non-empty substring is the number of matches a
      left-to-right scan finds, each scan resuming after the previous
      match. There is one such sequence of matches, and `count` is its
      length. */
  lemma CountIsGreedyMatches(s: string, sub: string)
    requires sub != []
    ensures exists ps :: GreedyMatches(s, sub, 0, ps) && |ps| == CountRepetition(s, sub)
    ensures forall ps :: GreedyMatches(s, sub, 0, ps) ==> |ps| == CountRepetition(s, sub)
  {
    ScanFromGreedy(s, sub, 0);
    CountFrom(s, sub, 0);
    assert s[0..] == s;
    var scan := ScanFrom(s, sub, 0);
    assert GreedyMatches(s, sub, 0, scan) && |scan| == CountRepetition(s, sub);
    forall ps | GreedyMatches(s, sub, 0, ps)
      ensures |ps| == CountRepetition(s, sub)
    {
      GreedyMatchesUnique(s, sub, 0, ps, scan);
    }
  }

  /** A non-empty substring is counted at least once exactly when it
      belongs to the string. */
  lemma {:induction false} CountPositiveIff(s: string, sub: string)
    requires sub != []
    ensures CountRepetition(s, sub) > 0 <==> BelongsTo(s, sub)
    decreases |s|
  {
    if |s| >= |sub| && s[..|sub|] != sub {
      CountPositiveIff(s[1..], sub);
    }
  }

  /** Counting one character counts its occurrences. */
  lemma {:induction false} CountCharacter(s: string, c: char)
    ensures CountRepetition(s, [c]) == multiset(s)[c]
    decreases |s|
  {
    if s != [] {
      assert s == [s[0]] + s[1..];
      CountCharacter(s[1..], c);
    }
  }

  // ---------------------------------------------------------------------
  // The question test (is_a_question)
  // ---------------------------------------------------------------------

  /** `s[-1] == '?'`; the empty string has no last character. */
  function IsAQuestion(s: string): (r: bool)
    requires s != []
  {
    s[|s| - 1] == '?'
  }

  /** Whatever comes before it, only the last character decides. */
  lemma IsAQuestionIff(p: string, c: char)
    ensures IsAQuestion(p + [c]) <==> c == '?'
  {
  }

  // ---------------------------------------------------------------------
  // Stripping (remove_surrounding_whitespaces)
  // ---------------------------------------------------------------------

  /** Drops the whitespace at the start: what remains is a suffix of `s`
      that is empty or starts with a non-space, and everything dropped is
      whitespace. */
  function StripLeft(s: string): (r: string)
    ensures |r| <= |s| && r == s[|s| - |r|..]
    ensures r == [] || !IsSpace(r[0])
    ensures forall i :: 0 <= i < |s| - |r| ==> IsSpace(s[i])
    decreases |s|
  {
    if s != [] && IsSpace(s[0]) then StripLeft(s[1..]) else s
  }

  /** Drops the whitespace at the end: what remains is a prefix of `s`
      that is empty or ends with a non-space, and everything dropped is
      whitespace. */
  function StripRight(s: string): (r: string)
    ensures |r| <= |s| && r == s[..|r|]
    ensures r == [] || !IsSpace(r[|r| - 1])
    ensures forall i :: |r| <= i < |s| ==> IsSpace(s[i])
    decreases |s|
  {
    if s != [] && IsSpace(s[|s| - 1]) then StripRight(s[..|s| - 1]) else s
  }

  /** `s.strip()`: both ends at once. */
  function Strip(s: string): (r: string)
    ensures r == [] || (!IsSpace(r[0]) && !IsSpace(r[|r| - 1]))
  {
    StripRight(StripLeft(s))
  }

  /** Where the stripped string starts in `s`: the length of the leading
      whitespace. */
  function StripStart(s: string): (lo: int)
  {
    |s| - |StripLeft(s)|
  }

  /** The stripped string is the slice of `s` that starts after the leading
      whitespace, and only whitespace lies outside it on either side. */
  lemma StripIsSlice(s: string)
    ensures 0 <= StripStart(s) <= StripStart(s) + |Strip(s)| <= |s|
    ensures Strip(s) == s[StripStart(s)..StripStart(s) + |Strip(s)|]
    ensures forall i :: 0 <= i < StripStart(s) ==> IsSpace(s[i])
    ensures forall i :: StripStart(s) + |Strip(s)| <= i < |s| ==> IsSpace(s[i])
  {
    var t := StripLeft(s);
    var r := Strip(s);
    assert r == StripRight(t);
    PrefixOfSuffix(s, t, r);
    SuffixSpaces(s, t, r);
  }

  /** A prefix of a suffix of `s` is a slice of `s`. */
  lemma PrefixOfSuffix(s: string, t: string, r: string)
    requires |t| <= |s| && t == s[|s| - |t|..]
    requires |r| <= |t| && r == t[..|r|]
    ensures r == s[|s| - |t|..|s| - |t| + |r|]
  {
  }

  /** What follows a prefix `r` of a suffix `t` of `s` is whitespace when
      what follows `r` in `t` is. */
  lemma SuffixSpaces(s: string, t: string, r: string)
    requires |t| <= |s| && t == s[|s| - |t|..] && |r| <= |t|
    requires forall i :: |r| <= i < |t| ==> IsSpace(t[i])
    ensures forall i :: |s| - |t| + |r| <= i < |s| ==> IsSpace(s[i])
  {
    var lo := |s| - |t|;
    forall i | lo + |r| <= i < |s| ensures IsSpace(s[i]) {
      assert s[i] == t[i - lo];
    }
  }

  /** A string with no whitespace at either end is left alone. */
  lemma StripUntrimmed(s: string)
    requires s == [] || (!IsSpace(s[0]) && !IsSpace(s[|s| - 1]))
    ensures Strip(s) == s
  {
  }

  /** Stripping twice is stripping once. */
  lemma StripIdempotent(s: string)
    ensures Strip(Strip(s)) == Strip(s)
  {
    StripUntrimmed(Strip(s));
  }

  /** A question keeps its question mark through stripping. */
  lemma StripKeepsQuestion(s: string)
    requires s != [] && IsAQuestion(s)
    ensures Strip(s) != [] && IsAQuestion(Strip(s))
  {
    StripIsSlice(s);
    assert !IsSpace(s[|s| - 1]);
  }

  /** Whitespace on both sides of a string with no whitespace at its ends
      is exactly what stripping removes. */
  lemma StripPadding(left: string, middle: string, right: string)
    requires forall i :: 0 <= i < |left| ==> IsSpace(left[i])
    requires forall i :: 0 <= i < |right| ==> IsSpace(right[i])
    requires middle != [] && !IsSpace(middle[0]) && !IsSpace(middle[|middle| - 1])
    ensures Strip(left + middle + right) == middle
  {
    var s := left + middle + right;
    StripIsSlice(s);
    var lo := StripStart(s);
    var r := Strip(s);
    assert s[|left|] == middle[0];
    assert s[|left| + |middle| - 1] == middle[|middle| - 1];
    assert lo == |left|;
    assert lo + |r| == |left| + |middle|;
    assert s[|left|..|left| + |middle|] == middle;
  }

  // ---------------------------------------------------------------------
  // Replacement (replace)
  // ---------------------------------------------------------------------

  lemma MulSucc(n: int, d: int)
    ensures (n + 1) * d == n * d + d
  {
  }

  /** `s.replace("", newPart)`: `newPart` before every character and at the end. */
  function InsertAround(s: string, newPart: string): (r: string)
    decreases |s|
  {
    if s == [] then newPart else newPart + [s[0]] + InsertAround(s[1..], newPart)
  }

  /** `newPart` is inserted once more than there are characters. */
  lemma {:induction false} InsertAroundLength(s: string, newPart: string)
    ensures |InsertAround(s, newPart)| == |s| + (|s| + 1) * |newPart|
    decreases |s|
  {
    if s != [] {
      InsertAroundLength(s[1..], newPart);
      MulSucc(|s|, |newPart|);
    }
  }

  /** The characters of `s`, each as a string of its own: `list(s)`. */
  function Characters(s: string): (cs: seq<string>)
    ensures |cs| == |s|
    ensures forall i :: 0 <= i < |s| ==> cs[i] == [s[i]]
  {
    seq(|s|, i requires 0 <= i < |s| => [s[i]])
  }

  /** `s.replace("", newPart)` is `newPart` before every character of `s`, in
      order, and once more at the end: for a non-empty `s`, the same string
      as `newPart + newPart.join(list(s)) + newPart`. */
  lemma {:induction false} InsertAroundJoin(s: string, newPart: string)
    ensures s == [] ==> InsertAround(s, newPart) == newPart
    ensures s != [] ==> InsertAround(s, newPart) == newPart + Join(Characters(s), newPart) + newPart
    decreases |s|
  {
    if |s| >= 2 {
      InsertAroundJoin(s[1..], newPart);
      assert Characters(s)[1..] == Characters(s[1..]);
    } else if |s| == 1 {
      assert s[1..] == [];
    }
  }

  /** Inserting the empty string changes nothing. */
  lemma {:induction false} InsertAroundEmpty(s: string)
    ensures InsertAround(s, []) == s
    decreases |s|
  {
    if s != [] {
      InsertAroundEmpty(s[1..]);
      assert s == [s[0]] + s[1..];
    }
  }

  /** `s.replace(oldPart, newPart)`: each non-overlapping occurrence of `oldPart`,
      found scanning left to right, becomes `newPart`. The lemmas below give
      the length for every `oldPart` and the contents for the empty
      `oldPart` and for a single letter, the case the source's parameters
      name. */
  function ReplaceAll(s: string, oldPart: string, newPart: string): (r: string)
    decreases |s|
  {
    if oldPart == [] then InsertAround(s, newPart)
    else if |s| < |oldPart| then s
    else if s[..|oldPart|] == oldPart then newPart + ReplaceAll(s[|oldPart|..], oldPart, newPart)
    else [s[0]] + ReplaceAll(s[1..], oldPart, newPart)
  }

  /** Replacement changes the length by the difference in lengths once per
      occurrence counted by `count`. */
  lemma {:induction false} ReplaceLength(s: string, oldPart: string, newPart: string)
    ensures |ReplaceAll(s, oldPart, newPart)| == |s| + CountRepetition(s, oldPart) * (|newPart| - |oldPart|)
    decreases |s|
  {
    var d := |newPart| - |oldPart|;
    if oldPart == [] {
      InsertAroundLength(s, newPart);
    } else if |s| >= |oldPart| {
      if s[..|oldPart|] == oldPart {
        var rest := s[|oldPart|..];
        ReplaceLength(rest, oldPart, newPart);
        var n := CountRepetition(rest, oldPart);
        assert CountRepetition(s, oldPart) == n + 1;
        assert ReplaceAll(s, oldPart, newPart) == newPart + ReplaceAll(rest, oldPart, newPart);
        MulSucc(n, d);
      } else {
        var rest := s[1..];
        ReplaceLength(rest, oldPart, newPart);
        assert CountRepetition(s, oldPart) == CountRepetition(rest, oldPart);
        assert ReplaceAll(s, oldPart, newPart) == [s[0]] + ReplaceAll(rest, oldPart, newPart);
      }
    }
  }

  /** Replacing one letter by another: the length is kept, exactly the
      positions holding `a` change, and they all become `b`. */
  lemma {:induction false} ReplaceLetter(s: string, a: char, b: char)
    ensures |ReplaceAll(s, [a], [b])| == |s|
    ensures forall i :: 0 <= i < |s| ==>
      ReplaceAll(s, [a], [b])[i] == if s[i] == a then b else s[i]
    decreases |s|
  {
    if s != [] {
      ReplaceLetter(s[1..], a, b);
      var r := ReplaceAll(s, [a], [b]);
      var rest := ReplaceAll(s[1..], [a], [b]);
      assert r == [if s[0] == a then b else s[0]] + rest;
    }
  }

  /** After replacing a letter by a different one, the letter is gone. */
  lemma ReplaceLetterRemoves(s: string, a: char, b: char)
    requires a != b
    ensures a !in ReplaceAll(s, [a], [b])
  {
    ReplaceLetter(s, a, b);
    var r := ReplaceAll(s, [a], [b]);
    forall i | 0 <= i < |r| ensures r[i] != a { }
  }

  /** Replacing a string by itself changes nothing. */
  lemma {:induction false} ReplaceSame(s: string, oldPart: string)
    ensures ReplaceAll(s, oldPart, oldPart) == s
    decreases |s|
  {
    if oldPart == [] {
      InsertAroundEmpty(s);
    } else if |s| >= |oldPart| {
      if s[..|oldPart|] == oldPart {
        ReplaceSame(s[|oldPart|..], oldPart);
        assert s == s[..|oldPart|] + s[|oldPart|..];
      } else {
        ReplaceSame(s[1..], oldPart);
        assert s == [s[0]] + s[1..];
      }
    }
  }

  /** Splitting on a character and joining with `sep` replaces every
      occurrence of the character by `sep`. */
  lemma {:induction false} JoinSplitReplaces(s: string, c: char, sep: string)
    ensures Join(Split(s, c), sep) == ReplaceAll(s, [c], sep)
    decreases |s|
  {
    if s != [] {
      var rest := Split(s[1..], c);
      JoinSplitReplaces(s[1..], c, sep);
      assert s[..1] == [s[0]];
      if s[0] == c {
        assert Split(s, c) == [[]] + rest;
        assert ReplaceAll(s, [c], sep) == sep + ReplaceAll(s[1..], [c], sep);
        assert ([[]] + rest)[1..] == rest;
      } else {
        var parts := [[s[0]] + rest[0]] + rest[1..];
        assert Split(s, c) == parts;
        assert ReplaceAll(s, [c], sep) == [s[0]] + ReplaceAll(s[1..], [c], sep);
        if |rest| > 1 {
          assert parts[1..] == rest[1..];
          assert Join(rest, sep) == rest[0] + sep + Join(rest[1..], sep);
        }
      }
    }
  }

  /** Replacing a letter, one character at a time. */
  lemma ReplaceLetterStep(s: string, c: char, newPart: string)
    requires s != []
    ensures ReplaceAll(s, [c], newPart)
         == (if s[0] == c then newPart else [s[0]]) + ReplaceAll(s[1..], [c], newPart)
  {
    assert s[..1] == [s[0]];
  }

  /** Replacing a letter works on each piece of a concatenation alone. */
  lemma {:induction false} ReplaceLetterConcat(a: string, b: string, c: char, newPart: string)
    ensures ReplaceAll(a + b, [c], newPart) == ReplaceAll(a, [c], newPart) + ReplaceAll(b, [c], newPart)
    decreases |a|
  {
    if a == [] {
      assert a + b == b;
    } else {
      var h := if a[0] == c then newPart else [a[0]];
      var tail, rb := ReplaceAll(a[1..], [c], newPart), ReplaceAll(b, [c], newPart);
      ReplaceLetterConcat(a[1..], b, c, newPart);
      ReplaceLetterStep(a + b, c, newPart);
      ReplaceLetterStep(a, c, newPart);
      assert (a + b)[1..] == a[1..] + b;
      calc {
        ReplaceAll(a + b, [c], newPart);
        h + ReplaceAll(a[1..] + b, [c], newPart);
        h + (tail + rb);
        (h + tail) + rb;
        ReplaceAll(a, [c], newPart) + rb;
      }
    }
  }

  /** A string without the letter is left as it is. */
  lemma {:induction false} ReplaceAbsentLetter(s: string, c: char, newPart: string)
    requires c !in s
    ensures ReplaceAll(s, [c], newPart) == s
    decreases |s|
  {
    if s != [] {
      ReplaceAbsentLetter(s[1..], c, newPart);
      ReplaceLetterStep(s, c, newPart);
      assert s == [s[0]] + s[1..];
    }
  }

  /** `add_comma` puts a comma before every single space. */
  lemma AddCommaReplaces(s: string)
    ensures AddComma(s) == ReplaceAll(s, " ", ", ")
  {
    JoinSplitReplaces(s, ' ', ", ");
  }

  /** Joining the fields back with the separator gives the string again. */
  lemma SplitJoin(s: string, c: char)
    ensures Join(Split(s, c), [c]) == s
  {
    JoinSplitReplaces(s, c, [c]);
    ReplaceSame(s, [c]);
  }

  // ---------------------------------------------------------------------
  // Capitalisation and the name formatters
  // ---------------------------------------------------------------------

  /** `s.capitalize()`: the first character upper-cased, the rest
      lower-cased. */
  function Capitalize(s: string): (r: string)
    ensures |r| == |s|
    ensures forall i :: 0 <= i < |s| ==> Lower(r[i]) == Lower(s[i])
    ensures r != [] ==> !IsLower(r[0])
    ensures forall i :: 0 < i < |r| ==> !IsUpper(r[i])
  {
    if s == [] then []
    else [Upper(s[0])] + seq(|s| - 1, i requires 0 <= i < |s| - 1 => Lower(s[i + 1]))
  }

  /** The first character is upper-case and the others are lower-case, with
      the same letters as `s` ignoring case: this determines `Capitalize`. */
  lemma CapitalizeUnique(s: string, t: string)
    requires |t| == |s|
    requires forall i :: 0 <= i < |s| ==> Lower(t[i]) == Lower(s[i])
    requires t != [] ==> !IsLower(t[0])
    requires forall i :: 0 < i < |t| ==> !IsUpper(t[i])
    ensures t == Capitalize(s)
  {
    var r := Capitalize(s);
    forall i | 0 <= i < |s| ensures t[i] == r[i] {
      assert Lower(t[i]) == Lower(r[i]);
    }
  }

  /** Capitalising twice is capitalising once. */
  lemma CapitalizeIdempotent(s: string)
    ensures Capitalize(Capitalize(s)) == Capitalize(s)
  {
    var r := Capitalize(s);
    CapitalizeUnique(r, r);
  }

  function DigitChar(d: int): (c: char)
    requires 0 <= d < 10
    ensures '0' <= c <= '9'
  {
    ('0' as int + d) as char
  }

  /** The decimal digits of `n`, most significant first, without leading
      zeros. */
  function Digits(n: nat): (r: string)
    ensures r != []
    ensures forall i :: 0 <= i < |r| ==> '0' <= r[i] <= '9'
    ensures |r| > 1 ==> r[0] != '0'
  {
    if n < 10 then [DigitChar(n)] else Digits(n / 10) + [DigitChar(n % 10)]
  }

  /** `str(n)` for an integer: a minus sign for negatives, then the digits
      of the magnitude. */
  function DecimalString(n: int): (r: string)
    ensures r != []
    ensures n < 0 <==> r[0] == '-'
    ensures var t := if n < 0 then r[1..] else r;
      && t != []
      && (forall i :: 0 <= i < |t| ==> '0' <= t[i] <= '9')
      && (|t| > 1 ==> t[0] != '0')
  {
    if n < 0 then "-" + Digits(-n) else Digits(n)
  }

  /** The value of a string of decimal digits. */
  function DigitsValue(s: string): (n: nat)
    decreases |s|
  {
    if s == [] then 0
    else DigitsValue(s[..|s| - 1]) * 10 + (if '0' <= s[|s| - 1] <= '9' then s[|s| - 1] as int - '0' as int else 0)
  }

  /** Reading an integer back from `str(n)`. */
  function ParseDecimal(s: string): (n: int)
  {
    if s != [] && s[0] == '-' then 0 - DigitsValue(s[1..]) else DigitsValue(s)
  }

  lemma {:induction false} DigitsRoundTrip(n: nat)
    ensures DigitsValue(Digits(n)) == n
    decreases n
  {
    if n >= 10 {
      DigitsRoundTrip(n / 10);
      var d := Digits(n);
      assert d[..|d| - 1] == Digits(n / 10);
    }
  }

  /** `str` loses nothing: the integer can be read back. */
  lemma DecimalRoundTrip(n: int)
    ensures ParseDecimal(DecimalString(n)) == n
  {
    if n < 0 {
      DigitsRoundTrip(-n);
      assert DecimalString(n)[1..] == Digits(-n);
    } else {
      DigitsRoundTrip(n);
    }
  }

  /** `full_description_concatenation`: capitalised first name, a space,
      capitalised last name, " is ", and the age in decimal. */
  function FullDescriptionConcatenation(firstName: string, lastName: string, age: int): (r: string)
  {
    Capitalize(firstName) + " " + Capitalize(lastName) + " is " + DecimalString(age)
  }

  /** A formatted string literal: its literal pieces with the formatted
      values in between, `literals[0] + values[0] + literals[1] + ...`. */
  function FormattedString(literals: seq<string>, values: seq<string>): (r: string)
    requires |literals| == |values| + 1
    decreases |values|
  {
    if values == [] then literals[0]
    else literals[0] + values[0] + FormattedString(literals[1..], values[1..])
  }

  /** `full_description_formatting`: the literal
      `{first} {last} is {age}`, with the names capitalised and the age
      formatted as `str` does for integers. */
  function FullDescriptionFormatting(firstName: string, lastName: string, age: int): (r: string)
  {
    FormattedString(["", " ", " is ", ""],
      [Capitalize(firstName), Capitalize(lastName), DecimalString(age)])
  }

  /** A literal with three replacement fields, spelled out. */
  lemma FormattedThree(l0: string, l1: string, l2: string, l3: string,
                       v0: string, v1: string, v2: string)
    ensures FormattedString([l0, l1, l2, l3], [v0, v1, v2])
         == l0 + v0 + l1 + v1 + l2 + v2 + l3
  {
    var lits, vals := [l0, l1, l2, l3], [v0, v1, v2];
    assert lits[1..][1..][1..] == [l3] && vals[1..][1..][1..] == [];
    assert FormattedString(lits[1..][1..], vals[1..][1..]) == l2 + v2 + l3;
    assert FormattedString(lits[1..], vals[1..]) == l1 + v1 + (l2 + v2 + l3);
  }

  /** The two formatters agree on every input. */
  lemma FullDescriptionsAgree(firstName: string, lastName: string, age: int)
    ensures FullDescriptionFormatting(firstName, lastName, age)
         == FullDescriptionConcatenation(firstName, lastName, age)
  {
    var a, b, c := Capitalize(firstName), Capitalize(lastName), DecimalString(age);
    FormattedThree("", " ", " is ", "", a, b, c);
    assert "" + a + " " + b + " is " + c + "" == a + " " + b + " is " + c;
  }

  // ---------------------------------------------------------------------
  // The worked examples
  // ---------------------------------------------------------------------

  /** Words separated by single spaces come out separated by a comma and
      a space. */
  lemma AddCommaWords(a: string, b: string, c: string)
    requires ' ' !in a && ' ' !in b && ' ' !in c
    ensures AddComma(a + " " + b + " " + c) == a + ", " + b + ", " + c
  {
    var space, sep := " ", ", ";
    AddCommaReplaces(a + space + b + space + c);
    ReplaceLetterStep(space, ' ', sep);
    assert ReplaceAll(space, " ", sep) == sep;
    ReplaceLetterConcat(a + space + b + space, c, ' ', sep);
    ReplaceLetterConcat(a + space + b, space, ' ', sep);
    ReplaceLetterConcat(a + space, b, ' ', sep);
    ReplaceLetterConcat(a, space, ' ', sep);
    ReplaceAbsentLetter(a, ' ', sep);
    ReplaceAbsentLetter(b, ' ', sep);
    ReplaceAbsentLetter(c, ' ', sep);
  }

  lemma AddCommaExample()
    ensures AddComma("John Peter Jude") == "John, Peter, Jude"
  {
    AddCommaWords("John", "Peter", "Jude");
    assert "John" + " " + "Peter" + " " + "Jude" == "John Peter Jude";
    assert "John" + ", " + "Peter" + ", " + "Jude" == "John, Peter, Jude";
  }

  lemma BelongsToExample()
    ensures BelongsTo("hey jude", "jude")
  {
  }

  lemma CountRepetitionExample()
    ensures CountRepetition("000123000123", "0") == 6
  {
    CountCharacter("000123000123", '0');
  }

  lemma IsAQuestionExample()
    ensures IsAQuestion("How are you?")
  {
  }

  lemma StripExample()
    ensures Strip("  hey yo  ") == "hey yo"
  {
    assert "  hey yo  " == "  " + "hey yo" + "  ";
    StripPadding("  ", "hey yo", "  ");
  }

  lemma ReplaceExample()
    ensures ReplaceAll("casanova", "a", "o") == "cosonovo"
  {
    ReplaceLetter("casanova", 'a', 'o');
  }

  lemma FullDescriptionExample()
    ensures FullDescriptionConcatenation("john", "doe", 33) == "John Doe is 33"
    ensures FullDescriptionFormatting("john", "doe", 33) == "John Doe is 33"
  {
    FullDescriptionsAgree("john", "doe", 33);
    ExampleParts();
  }

  /** The three values the example formats. */
  lemma ExampleParts()
    ensures Capitalize("john") == "John"
    ensures Capitalize("doe") == "Doe"
    ensures DecimalString(33) == "33"
  {
  }
}
