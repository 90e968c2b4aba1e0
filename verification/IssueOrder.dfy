/**
 * The natural order of issue numbers (p97_verify_comicvine_volume_issues.py,
 * `_issue_sort_key`), for ASCII text.
 */
module IssueOrder {
  import opened Common
  import opened PyText
  import opened Decimal

  // ----- The key -----

  datatype Part = Word(text: string) | Number(n: nat)

  type Key = seq<Part>

  /** Length of the longest prefix of digits (or of non-digits). */
  function RunLength(s: string, digits: bool): (n: nat)
    ensures n <= |s| && forall i :: 0 <= i < n ==> IsDigit(s[i]) == digits
    ensures n < |s| ==> IsDigit(s[n]) != digits
  {
    if s == "" || IsDigit(s[0]) != digits then 0 else 1 + RunLength(s[1..], digits)
  }

  /** `re.split(r"(\d+)", s)`: text and digit runs in turn, beginning and ending with text. */
  function Split(s: string): seq<string>
    decreases |s|
  {
    var t := RunLength(s, false);
    if t == |s| then [s]
    else
      var d := RunLength(s[t..], true);
      [s[..t], s[t..][..d]] + Split(s[t..][d..])
  }

  function PartOf(part: string): Part {
    if part != "" && AllDigits(part) then Number(NatOf(part)) else Word(Lower(part))
  }

  function KeyOf(s: string): Key {
    Map(PartOf, Split(s))
  }

  datatype Issue = Issue(normalizedNumber: Option<string>, number: Option<string>)

  function NumberText(issue: Issue): string {
    if issue.normalizedNumber.Some? && issue.normalizedNumber.value != "" then issue.normalizedNumber.value
    else if issue.number.Some? then issue.number.value
    else ""
  }

  method IssueSortKey(issue: Issue) returns (key: Key)
    ensures key == KeyOf(NumberText(issue))
    ensures forall text :: issue.normalizedNumber == Some(text) && text != "" ==> key == KeyOf(text)
    ensures issue.normalizedNumber == None || issue.normalizedNumber == Some("") ==>
              key == match issue.number case Some(text) => KeyOf(text) case None => KeyOf("")
  {
    var parts := Split(NumberText(issue));
    key := [];
    var i := 0;
    while i < |parts|
      invariant 0 <= i <= |parts|
      invariant key == Map(PartOf, parts)[..i]
    {
      if parts[i] != "" && AllDigits(parts[i]) {
        key := key + [Number(NatOf(parts[i]))];
      } else {
        key := key + [Word(Lower(parts[i]))];
      }
      i := i + 1;
    }
  }

  // ----- The shape of a split -----

  predicate NoDigits(s: string) {
    forall i :: 0 <= i < |s| ==> !IsDigit(s[i])
  }

  lemma {:induction false} RunLengthIs(a: string, b: string, digits: bool)
    requires forall i :: 0 <= i < |a| ==> IsDigit(a[i]) == digits
    requires b == "" || IsDigit(b[0]) != digits
    ensures RunLength(a + b, digits) == |a|
  {
    if a == "" {
      assert a + b == b;
    } else {
      assert (a + b)[1..] == a[1..] + b;
      RunLengthIs(a[1..], b, digits);
    }
  }

  /** The text before the first digit, the digits from there, and the rest. */
  function FirstText(s: string): string {
    s[..RunLength(s, false)]
  }

  function FirstDigits(s: string): string {
    var t := s[RunLength(s, false)..];
    t[..RunLength(t, true)]
  }

  function AfterDigits(s: string): string {
    var t := s[RunLength(s, false)..];
    t[RunLength(t, true)..]
  }

  lemma Cut(s: string)
    ensures s == FirstText(s) + (FirstDigits(s) + AfterDigits(s))
    ensures NoDigits(FirstText(s)) && AllDigits(FirstDigits(s))
    ensures AfterDigits(s) == "" || !IsDigit(AfterDigits(s)[0])
    ensures FirstDigits(s) == "" <==> s == FirstText(s)
    ensures FirstDigits(s) != "" ==> |AfterDigits(s)| < |s|
  {
    var t := s[RunLength(s, false)..];
    assert t == FirstDigits(s) + AfterDigits(s);
    assert FirstDigits(s) == "" <==> t == "";
  }

  lemma CutSplit(s: string)
    ensures Split(s) == if FirstDigits(s) == "" then [s]
                        else [FirstText(s), FirstDigits(s)] + Split(AfterDigits(s))
  {
    Cut(s);
  }

  lemma {:induction false} SplitLossless(s: string)
    ensures Flatten(Split(s)) == s
    decreases |s|
  {
    Cut(s);
    CutSplit(s);
    if FirstDigits(s) == "" {
      assert Flatten([s]) == s + Flatten([]) == s;
    } else {
      SplitLossless(AfterDigits(s));
      FlattenTwo(FirstText(s), FirstDigits(s), Split(AfterDigits(s)));
    }
  }

  lemma FlattenTwo(a: string, b: string, more: seq<string>)
    ensures Flatten([a, b] + more) == a + (b + Flatten(more))
  {
    var all := [a, b] + more;
    assert all[1..] == [b] + more && all[1..][1..] == more;
  }

  /** Text, digits, text, and so on, with text at both ends. */
  predicate AlternatingParts(parts: seq<string>) {
    && |parts| % 2 == 1
    && forall i :: 0 <= i < |parts| ==>
         if i % 2 == 0 then NoDigits(parts[i]) else parts[i] != "" && AllDigits(parts[i])
  }

  lemma PrependTwo(t: string, d: string, more: seq<string>)
    requires NoDigits(t) && d != "" && AllDigits(d) && AlternatingParts(more)
    ensures AlternatingParts([t, d] + more)
  {
    var parts := [t, d] + more;
    forall i | 0 <= i < |parts|
      ensures if i % 2 == 0 then NoDigits(parts[i]) else parts[i] != "" && AllDigits(parts[i])
    {
      if i >= 2 {
        assert parts[i] == more[i - 2];
      }
    }
  }

  lemma {:induction false} SplitAlternates(s: string)
    ensures AlternatingParts(Split(s))
    decreases |s|
  {
    Cut(s);
    CutSplit(s);
    if FirstDigits(s) != "" {
      SplitAlternates(AfterDigits(s));
      PrependTwo(FirstText(s), FirstDigits(s), Split(AfterDigits(s)));
    }
  }

  lemma SplitStep(t: string, d: string, rest: string)
    requires NoDigits(t) && d != "" && AllDigits(d) && (rest == "" || !IsDigit(rest[0]))
    ensures Split(t + (d + rest)) == [t, d] + Split(rest)
  {
    var s := t + (d + rest);
    RunLengthIs(t, d + rest, false);
    RunLengthIs(d, rest, true);
    assert s[|t|..] == d + rest && s[..|t|] == t;
    assert (d + rest)[..|d|] == d && (d + rest)[|d|..] == rest;
  }

  /** A text, a digit run and what follows make the first two parts of the key. */
  lemma KeyStep(t: string, d: string, rest: string)
    requires NoDigits(t) && d != "" && AllDigits(d) && (rest == "" || !IsDigit(rest[0]))
    ensures KeyOf(t + (d + rest)) == [Word(Lower(t)), Number(NatOf(d))] + KeyOf(rest)
  {
    SplitStep(t, d, rest);
    PartOfText(t);
    MapTwo(t, d, Split(rest));
  }

  lemma MapTwo(a: string, b: string, more: seq<string>)
    ensures Map(PartOf, [a, b] + more) == [PartOf(a), PartOf(b)] + Map(PartOf, more)
  {
  }

  lemma PartOfText(t: string)
    requires NoDigits(t)
    ensures PartOf(t) == Word(Lower(t))
  {
    if t != "" {
      assert !IsDigit(t[0]);
    }
  }

  lemma KeyOfText(t: string)
    requires NoDigits(t)
    ensures KeyOf(t) == [Word(Lower(t))]
  {
    assert t + "" == t;
    RunLengthIs(t, "", false);
    assert Split(t) == [t];
    PartOfText(t);
  }

  // ----- Comparing keys -----

  datatype Order = Less | Equal | Greater | Clash

  function CompareText(a: string, b: string): Order {
    if a == "" then (if b == "" then Equal else Less)
    else if b == "" then Greater
    else if a[0] == b[0] then CompareText(a[1..], b[1..])
    else if a[0] < b[0] then Less else Greater
  }

  /** Python's tuple comparison; Clash where it would compare a string with a number. */
  function Compare(a: Key, b: Key): Order {
    if a == [] then (if b == [] then Equal else Less)
    else if b == [] then Greater
    else if a[0] == b[0] then Compare(a[1..], b[1..])
    else
      match (a[0], b[0])
      case (Word(s), Word(t)) => CompareText(s, t)
      case (Number(m), Number(n)) => if m < n then Less else Greater
      case _ => Clash
  }

  function Flip(o: Order): Order {
    match o case Less => Greater case Greater => Less case _ => o
  }

  /** Strings at even positions and numbers at odd ones (or the reverse, after the first). */
  predicate Alternates(k: Key, wordFirst: bool) {
    forall i :: 0 <= i < |k| ==> (k[i].Word? <==> (i % 2 == 0) == wordFirst)
  }

  lemma KeysAlternate(s: string)
    ensures Alternates(KeyOf(s), true)
  {
    SplitAlternates(s);
    var parts := Split(s);
    forall i | 0 <= i < |parts|
      ensures KeyOf(s)[i].Word? <==> i % 2 == 0
    {
      if i % 2 == 0 {
        PartOfText(parts[i]);
      }
    }
  }

  lemma {:induction false} TextOrder(a: string, b: string)
    ensures CompareText(a, b) != Clash
    ensures CompareText(a, b) == Equal <==> a == b
    ensures CompareText(b, a) == Flip(CompareText(a, b))
  {
    if a != "" && b != "" && a[0] == b[0] {
      TextOrder(a[1..], b[1..]);
      assert a == [a[0]] + a[1..] && b == [b[0]] + b[1..];
    }
  }

  lemma {:induction false} TextTransitive(a: string, b: string, c: string)
    requires CompareText(a, b) == Less && CompareText(b, c) == Less
    ensures CompareText(a, c) == Less
  {
    if a != "" && b != "" && c != "" && a[0] == b[0] && b[0] == c[0] {
      TextTransitive(a[1..], b[1..], c[1..]);
    }
  }

  lemma TailAlternates(k: Key, wordFirst: bool)
    requires Alternates(k, wordFirst) && k != []
    ensures Alternates(k[1..], !wordFirst)
  {
    forall i | 0 <= i < |k[1..]|
      ensures k[1..][i].Word? <==> (i % 2 == 0) == !wordFirst
    {
      assert k[1..][i] == k[i + 1];
    }
  }

  /** No clash; equal exactly for equal keys; swapping the sides flips the result. */
  lemma {:induction false} KeyOrder(a: Key, b: Key, wordFirst: bool)
    requires Alternates(a, wordFirst) && Alternates(b, wordFirst)
    ensures Compare(a, b) != Clash
    ensures Compare(a, b) == Equal <==> a == b
    ensures Compare(b, a) == Flip(Compare(a, b))
    decreases |a|
  {
    if a != [] && b != [] {
      if a[0] == b[0] {
        TailAlternates(a, wordFirst);
        TailAlternates(b, wordFirst);
        KeyOrder(a[1..], b[1..], !wordFirst);
        assert a == [a[0]] + a[1..] && b == [b[0]] + b[1..];
      } else if a[0].Word? && b[0].Word? {
        TextOrder(a[0].text, b[0].text);
      }
    }
  }

  lemma {:induction false} KeyTransitive(a: Key, b: Key, c: Key, wordFirst: bool)
    requires Alternates(a, wordFirst) && Alternates(b, wordFirst) && Alternates(c, wordFirst)
    requires Compare(a, b) == Less && Compare(b, c) == Less
    ensures Compare(a, c) == Less
    decreases |a|
  {
    if a != [] {
      if a[0] == b[0] && b[0] == c[0] {
        TailAlternates(a, wordFirst);
        TailAlternates(b, wordFirst);
        TailAlternates(c, wordFirst);
        KeyTransitive(a[1..], b[1..], c[1..], !wordFirst);
      } else if a[0].Word? && a[0] != b[0] && b[0] != c[0] {
        TextTransitive(a[0].text, b[0].text, c[0].text);
        TextOrder(a[0].text, c[0].text);
      }
    }
  }

  /** Keys of any strings compare without a type clash, and the comparison is a total order. */
  lemma IssueKeysAreOrdered(x: string, y: string, z: string)
    ensures Compare(KeyOf(x), KeyOf(y)) != Clash
    ensures Compare(KeyOf(x), KeyOf(y)) == Equal <==> KeyOf(x) == KeyOf(y)
    ensures Compare(KeyOf(y), KeyOf(x)) == Flip(Compare(KeyOf(x), KeyOf(y)))
    ensures Compare(KeyOf(x), KeyOf(y)) == Less && Compare(KeyOf(y), KeyOf(z)) == Less
            ==> Compare(KeyOf(x), KeyOf(z)) == Less
  {
    KeysAlternate(x);
    KeysAlternate(y);
    KeysAlternate(z);
    KeyOrder(KeyOf(x), KeyOf(y), true);
    if Compare(KeyOf(x), KeyOf(y)) == Less && Compare(KeyOf(y), KeyOf(z)) == Less {
      KeyTransitive(KeyOf(x), KeyOf(y), KeyOf(z), true);
    }
  }

  // ----- What less means -----

  ghost predicate TextBelow(a: string, b: string, i: nat) {
    && i <= |a| && i <= |b| && a[..i] == b[..i]
    && i < |b| && (i == |a| || a[i] as int < b[i] as int)
  }

  /** Texts compare at their first difference, by code point; a beginning comes first. */
  lemma {:induction false} CompareTextMeaning(a: string, b: string)
    ensures CompareText(a, b) == Less <==> exists i: nat :: TextBelow(a, b, i)
  {
    if a != "" && b != "" && a[0] == b[0] {
      CompareTextMeaning(a[1..], b[1..]);
      if i: nat :| TextBelow(a[1..], b[1..], i) {
        assert a[..i + 1] == [a[0]] + a[1..][..i] && b[..i + 1] == [b[0]] + b[1..][..i];
        assert TextBelow(a, b, i + 1);
      }
      if i: nat :| TextBelow(a, b, i) {
        assert i > 0;
        assert a[1..][..i - 1] == a[..i][1..] && b[1..][..i - 1] == b[..i][1..];
        assert TextBelow(a[1..], b[1..], i - 1);
      }
    } else if CompareText(a, b) == Less {
      assert TextBelow(a, b, 0);
    } else {
      forall i: nat
        ensures !TextBelow(a, b, i)
      {
        assert 0 < i <= |a| && i <= |b| ==> a[..i][0] == a[0] && b[..i][0] == b[0];
      }
    }
  }

  predicate PartBelow(p: Part, q: Part) {
    (p.Number? && q.Number? && p.n < q.n) || (p.Word? && q.Word? && CompareText(p.text, q.text) == Less)
  }

  ghost predicate KeyBelow(a: Key, b: Key, i: nat) {
    && i <= |a| && i <= |b| && a[..i] == b[..i]
    && i < |b| && (i == |a| || PartBelow(a[i], b[i]))
  }

  /** Keys compare at their first difference: numbers by size, texts as texts; a beginning comes first. */
  lemma {:induction false} CompareMeaning(a: Key, b: Key)
    ensures Compare(a, b) == Less <==> exists i: nat :: KeyBelow(a, b, i)
  {
    if a != [] && b != [] && a[0] == b[0] {
      CompareMeaning(a[1..], b[1..]);
      if a[0].Word? {
        TextOrder(a[0].text, b[0].text);
      }
      if i: nat :| KeyBelow(a[1..], b[1..], i) {
        assert a[..i + 1] == [a[0]] + a[1..][..i] && b[..i + 1] == [b[0]] + b[1..][..i];
        assert KeyBelow(a, b, i + 1);
      }
      if i: nat :| KeyBelow(a, b, i) {
        assert i > 0;
        assert a[1..][..i - 1] == a[..i][1..] && b[1..][..i - 1] == b[..i][1..];
        assert KeyBelow(a[1..], b[1..], i - 1);
      }
    } else if Compare(a, b) == Less {
      assert KeyBelow(a, b, 0);
    } else {
      forall i: nat
        ensures !KeyBelow(a, b, i)
      {
        assert 0 < i <= |a| && i <= |b| ==> a[..i][0] == a[0] && b[..i][0] == b[0];
      }
    }
  }

  // Issues with equal keys keep the order they had: the sort is stable.

  function WithKey<T>(key: T -> Key, k: Key, s: seq<T>): seq<T> {
    if s == [] then [] else (if key(s[0]) == k then [s[0]] else []) + WithKey(key, k, s[1..])
  }

  ghost predicate SortedBy<T>(key: T -> Key, s: seq<T>) {
    forall i, j :: 0 <= i < j < |s| ==> Compare(key(s[i]), key(s[j])) != Greater
  }

  /** The same issues, those of each key in the same order. */
  ghost predicate SameWithinKeys<T(!new)>(key: T -> Key, a: seq<T>, b: seq<T>) {
    forall k :: WithKey(key, k, a) == WithKey(key, k, b)
  }

  lemma {:induction false} WithKeyMembers<T>(key: T -> Key, k: Key, s: seq<T>)
    ensures WithKey(key, k, s) != [] <==> exists i :: 0 <= i < |s| && key(s[i]) == k
  {
    if s != [] {
      WithKeyMembers(key, k, s[1..]);
      if i :| 0 <= i < |s| && key(s[i]) == k {
        assert i > 0 ==> s[1..][i - 1] == s[i];
      }
    }
  }

  lemma KeyAppears<T(!new)>(key: T -> Key, a: seq<T>, b: seq<T>)
    requires a != [] && SameWithinKeys(key, a, b)
    ensures exists j :: 0 <= j < |b| && key(b[j]) == key(a[0])
  {
    WithKeyMembers(key, key(a[0]), a);
    WithKeyMembers(key, key(a[0]), b);
    assert WithKey(key, key(a[0]), a) == WithKey(key, key(a[0]), b);
  }

  lemma SmallestKeysAgree<T(!new)>(key: T -> Key, a: seq<T>, b: seq<T>)
    requires a != [] && b != [] && SameWithinKeys(key, a, b) && SortedBy(key, a) && SortedBy(key, b)
    requires Alternates(key(a[0]), true) && Alternates(key(b[0]), true)
    ensures key(a[0]) == key(b[0])
  {
    KeyAppears(key, a, b);
    KeyAppears(key, b, a);
    var j :| 0 <= j < |b| && key(b[j]) == key(a[0]);
    var i :| 0 <= i < |a| && key(a[i]) == key(b[0]);
    KeyOrder(key(a[0]), key(b[0]), true);
  }

  lemma TailsAgree<T(!new)>(key: T -> Key, a: seq<T>, b: seq<T>)
    requires a != [] && b != [] && SameWithinKeys(key, a, b) && key(a[0]) == key(b[0])
    ensures a[0] == b[0] && SameWithinKeys(key, a[1..], b[1..])
  {
    assert WithKey(key, key(a[0]), a)[0] == a[0];
    assert WithKey(key, key(a[0]), b)[0] == b[0];
    forall k
      ensures WithKey(key, k, a[1..]) == WithKey(key, k, b[1..])
    {
      assert WithKey(key, k, a) == WithKey(key, k, b);
      var drop := if key(a[0]) == k then 1 else 0;
      assert WithKey(key, k, a)[drop..] == WithKey(key, k, a[1..]);
      assert WithKey(key, k, b)[drop..] == WithKey(key, k, b[1..]);
    }
  }

  /**
   * A stable sort leaves no choice at all: two sorted lists of issues that agree, key
   * by key, with the list they were sorted from are the same list.
   */
  lemma {:induction false} StableSortIsDetermined<T(!new)>(key: T -> Key, a: seq<T>, b: seq<T>)
    requires SameWithinKeys(key, a, b) && SortedBy(key, a) && SortedBy(key, b)
    requires forall i :: 0 <= i < |a| ==> Alternates(key(a[i]), true)
    requires forall i :: 0 <= i < |b| ==> Alternates(key(b[i]), true)
    ensures a == b
    decreases |a|
  {
    if a != [] && b != [] {
      SmallestKeysAgree(key, a, b);
      TailsAgree(key, a, b);
      StableSortIsDetermined(key, a[1..], b[1..]);
      assert a == [a[0]] + a[1..] && b == [b[0]] + b[1..];
    } else if a != [] {
      KeyAppears(key, a, b);
    } else if b != [] {
      KeyAppears(key, b, a);
    }
  }

  /** The key function handed to the sort, for rows that hold an issue's numbers. */
  function SortKey<T>(issue: T -> Issue): T -> Key {
    x => KeyOf(NumberText(issue(x)))
  }

  /** So sorting issues by their keys, stably, has one outcome. */
  lemma SortedIssuesAreDetermined<T(!new)>(issue: T -> Issue, a: seq<T>, b: seq<T>)
    requires SameWithinKeys(SortKey(issue), a, b) && SortedBy(SortKey(issue), a) && SortedBy(SortKey(issue), b)
    ensures a == b
  {
    forall x
      ensures Alternates(SortKey(issue)(x), true)
    {
      KeysAlternate(NumberText(issue(x)));
    }
    StableSortIsDetermined(SortKey(issue), a, b);
  }

  function Occurrences<T(==)>(x: T, s: seq<T>): seq<T> {
    if s == [] then [] else (if s[0] == x then [s[0]] else []) + Occurrences(x, s[1..])
  }

  lemma {:induction false} OccurrencesMeaning<T>(x: T, s: seq<T>)
    ensures |Occurrences(x, s)| == multiset(s)[x]
    ensures forall i :: 0 <= i < |Occurrences(x, s)| ==> Occurrences(x, s)[i] == x
  {
    if s != [] {
      OccurrencesMeaning(x, s[1..]);
      assert s == [s[0]] + s[1..];
    }
  }

  function Itself(k: Key): Key { k }

  lemma {:induction false} KeyRepeats(k: Key, s: seq<Key>)
    ensures WithKey(Itself, k, s) == Occurrences(k, s)
  {
    if s != [] {
      KeyRepeats(k, s[1..]);
    }
  }

  lemma SameOccurrences(k: Key, a: seq<Key>, b: seq<Key>)
    requires multiset(a)[k] == multiset(b)[k]
    ensures WithKey(Itself, k, a) == WithKey(Itself, k, b)
  {
    KeyRepeats(k, a);
    KeyRepeats(k, b);
    OccurrencesMeaning(k, a);
    OccurrencesMeaning(k, b);
  }

  /** Of the keys alone, nothing but which there are matters. */
  lemma SortIsDetermined(a: seq<Key>, b: seq<Key>)
    requires multiset(a) == multiset(b) && SortedBy(Itself, a) && SortedBy(Itself, b)
    requires forall k :: k in a ==> Alternates(k, true)
    ensures a == b
  {
    forall k
      ensures WithKey(Itself, k, a) == WithKey(Itself, k, b)
    {
      SameOccurrences(k, a, b);
    }
    forall i | 0 <= i < |b|
      ensures Alternates(b[i], true)
    {
      assert b[i] in multiset(a);
    }
    StableSortIsDetermined(Itself, a, b);
  }

  // ----- When keys are equal -----

  /**
   * The text in lower case, without the leading zeros of its numbers: a zero goes
   * when no digit of its run has been kept and another digit follows.
   */
  function Normal(s: string, kept: bool): string {
    if s == "" then ""
    else if !IsDigit(s[0]) then [LowerChar(s[0])] + Normal(s[1..], false)
    else if s[0] == '0' && !kept && |s| > 1 && IsDigit(s[1]) then Normal(s[1..], false)
    else [s[0]] + Normal(s[1..], true)
  }

  /** A digit run without its leading zeros. */
  function Trim(d: string): string {
    if |d| > 1 && d[0] == '0' then Trim(d[1..]) else d
  }

  lemma {:induction false} NormalOfText(t: string, rest: string)
    requires NoDigits(t)
    ensures Normal(t + rest, false) == Lower(t) + Normal(rest, false)
  {
    if t == "" {
      assert t + rest == rest && Lower(t) + Normal(rest, false) == Normal(rest, false);
    } else {
      assert (t + rest)[1..] == t[1..] + rest;
      NormalOfText(t[1..], rest);
      assert Lower(t) == [LowerChar(t[0])] + Lower(t[1..]);
      Assoc([LowerChar(t[0])], Lower(t[1..]), Normal(rest, false));
    }
  }

  lemma {:induction false} NormalOfKeptDigits(d: string, rest: string)
    requires AllDigits(d) && (rest == "" || !IsDigit(rest[0]))
    ensures Normal(d + rest, true) == d + Normal(rest, false)
  {
    if d == "" {
      assert d + rest == rest && d + Normal(rest, false) == Normal(rest, false);
    } else {
      assert (d + rest)[1..] == d[1..] + rest;
      NormalOfKeptDigits(d[1..], rest);
      assert d == [d[0]] + d[1..];
      Assoc([d[0]], d[1..], Normal(rest, false));
    }
  }

  lemma {:induction false} NormalOfDigits(d: string, rest: string)
    requires d != "" && AllDigits(d) && (rest == "" || !IsDigit(rest[0]))
    ensures Normal(d + rest, false) == Trim(d) + Normal(rest, false)
    decreases |d|
  {
    var s := d + rest;
    assert s[1..] == d[1..] + rest;
    if |d| > 1 {
      assert s[1] == d[1];
    } else if rest != "" {
      assert s[1] == rest[0];
    }
    if |d| > 1 && d[0] == '0' {
      NormalOfDigits(d[1..], rest);
    } else {
      NormalOfKeptDigits(d[1..], rest);
      assert d == [d[0]] + d[1..];
      Assoc([d[0]], d[1..], Normal(rest, false));
    }
  }

  lemma {:induction false} TrimKeepsValue(d: string)
    requires d != "" && AllDigits(d)
    ensures Trim(d) != "" && AllDigits(Trim(d)) && NatOf(Trim(d)) == NatOf(d)
    decreases |d|
  {
    if |d| > 1 && d[0] == '0' {
      TrimKeepsValue(d[1..]);
      LeadingZero(d);
    }
  }

  lemma {:induction false} LeadingZero(d: string)
    requires d != "" && AllDigits(d) && d[0] == '0'
    ensures NatOf(d[1..]) == NatOf(d)
  {
    if |d| > 1 {
      LeadingZero(d[..|d| - 1]);
      assert d[..|d| - 1][1..] == d[1..][..|d| - 2];
    } else {
      assert d[..0] == "" && d[1..] == "";
    }
  }

  lemma {:induction false} TrimIsShow(d: string)
    requires d != "" && AllDigits(d) && (|d| == 1 || d[0] != '0')
    ensures ShowNat(NatOf(d)) == d
    ensures |d| > 1 ==> NatOf(d) >= 10
  {
    var init, last := d[..|d| - 1], d[|d| - 1];
    if |d| == 1 {
      assert NatOf(init) == 0;
    } else {
      if |init| > 1 {
        TrimIsShow(init);
      } else {
        TrimIsShow(init);
        assert init[..0] == "";
      }
      assert NatOf(d) / 10 == NatOf(init) && NatOf(d) % 10 == DigitValue(last);
      assert d == init + [last];
    }
  }

  lemma {:induction false} TrimShape(d: string)
    requires d != ""
    ensures Trim(d) != "" && (|Trim(d)| == 1 || Trim(d)[0] != '0')
  {
    if |d| > 1 && d[0] == '0' {
      TrimShape(d[1..]);
    }
  }

  function Render(k: Key): string {
    if k == [] then "" else (match k[0] case Word(t) => t case Number(n) => ShowNat(n)) + Render(k[1..])
  }

  /** The key determines the normal form: writing the key out gives it. */
  lemma {:induction false} RenderKey(s: string)
    ensures Render(KeyOf(s)) == Normal(s, false)
    decreases |s|
  {
    var t, d, rest := FirstText(s), FirstDigits(s), AfterDigits(s);
    Cut(s);
    if d == "" {
      assert t + "" == t;
      KeyOfText(t);
      NormalOfText(t, "");
      assert KeyOf(s)[1..] == [] && Lower(t) + "" == Lower(t);
    } else {
      KeyStep(t, d, rest);
      RenderKey(rest);
      NormalOfText(t, d + rest);
      NormalOfDigits(d, rest);
      TrimKeepsValue(d);
      TrimShape(d);
      TrimIsShow(Trim(d));
      RenderTwo(Lower(t), NatOf(d), KeyOf(rest));
    }
  }

  lemma RenderTwo(t: string, n: nat, k: Key)
    ensures Render([Word(t), Number(n)] + k) == t + (ShowNat(n) + Render(k))
  {
    var all := [Word(t), Number(n)] + k;
    assert all[1..] == [Number(n)] + k && all[1..][1..] == k;
  }

  lemma NormalStartsAsText(s: string)
    requires s == "" || !IsDigit(s[0])
    ensures Normal(s, false) == "" || !IsDigit(Normal(s, false)[0])
  {
  }

  /** The normal form determines the key: it has the same one. */
  lemma {:induction false} KeyOfNormal(s: string)
    ensures KeyOf(Normal(s, false)) == KeyOf(s)
    decreases |s|
  {
    var t, d, rest := FirstText(s), FirstDigits(s), AfterDigits(s);
    Cut(s);
    LowerTwice(t);
    if d == "" {
      assert t + "" == t && Lower(t) + "" == Lower(t);
      KeyOfText(t);
      KeyOfText(Lower(t));
      NormalOfText(t, "");
    } else {
      KeyStep(t, d, rest);
      KeyOfNormal(rest);
      NormalStartsAsText(rest);
      NormalOfText(t, d + rest);
      NormalOfDigits(d, rest);
      TrimKeepsValue(d);
      KeyStep(Lower(t), Trim(d), Normal(rest, false));
    }
  }

  lemma LowerTwice(t: string)
    requires NoDigits(t)
    ensures NoDigits(Lower(t)) && Lower(Lower(t)) == Lower(t)
  {
  }

  /** Two issue numbers get equal keys exactly when they agree up to case and leading zeros. */
  lemma EqualKeys(s: string, t: string)
    ensures KeyOf(s) == KeyOf(t) <==> Normal(s, false) == Normal(t, false)
  {
    RenderKey(s);
    RenderKey(t);
    KeyOfNormal(s);
    KeyOfNormal(t);
  }

  // ----- The order is natural -----

  lemma CompareTwo(w: Part, p: Part, x: Key, q: Part, y: Key)
    ensures p == q ==> Compare([w, p] + x, [w, q] + y) == Compare(x, y)
    ensures p.Number? && q.Number? && p.n < q.n ==> Compare([w, p] + x, [w, q] + y) == Less
  {
    var a, b := [w, p] + x, [w, q] + y;
    assert a[1..] == [p] + x && b[1..] == [q] + y;
    assert a[1..][1..] == x && b[1..][1..] == y;
  }

  lemma NumbersAfterText(t: string, m: nat, a: string, n: nat, b: string)
    requires NoDigits(t) && m < n
    requires (a == "" || !IsDigit(a[0])) && (b == "" || !IsDigit(b[0]))
    ensures Compare(KeyOf(t + (ShowNat(m) + a)), KeyOf(t + (ShowNat(n) + b))) == Less
  {
    KeyStep(t, ShowNat(m), a);
    KeyStep(t, ShowNat(n), b);
    NatOfShow(m);
    NatOfShow(n);
    CompareTwo(Word(Lower(t)), Number(m), KeyOf(a), Number(n), KeyOf(b));
  }

  lemma SameBeginning(t: string, d: string, x: string, y: string)
    requires NoDigits(t) && d != "" && AllDigits(d)
    requires (x == "" || !IsDigit(x[0])) && (y == "" || !IsDigit(y[0]))
    ensures Compare(KeyOf(t + (d + x)), KeyOf(t + (d + y))) == Compare(KeyOf(x), KeyOf(y))
  {
    KeyStep(t, d, x);
    KeyStep(t, d, y);
    CompareTwo(Word(Lower(t)), Number(NatOf(d)), KeyOf(x), Number(NatOf(d)), KeyOf(y));
  }

  lemma Regroup(t: string, d: string, rest: string, x: string)
    ensures (t + (d + rest)) + x == t + (d + (rest + x))
  {
    Assoc(t, d + rest, x);
    Assoc(d, rest, x);
  }

  /**
   * After a common beginning that does not end in a digit, issue numbers come in
   * the order of their numbers, whatever follows: 2 before 10, X-9b before X-10a.
   */
  lemma {:induction false} NumbersInOrder(p: string, m: nat, a: string, n: nat, b: string)
    requires m < n
    requires p == "" || !IsDigit(p[|p| - 1])
    requires (a == "" || !IsDigit(a[0])) && (b == "" || !IsDigit(b[0]))
    ensures Compare(KeyOf(p + (ShowNat(m) + a)), KeyOf(p + (ShowNat(n) + b))) == Less
    decreases |p|
  {
    var t, d, rest := FirstText(p), FirstDigits(p), AfterDigits(p);
    Cut(p);
    if d == "" {
      NumbersAfterText(p, m, a, n, b);
    } else {
      LastIsNotDigit(t, d, rest);
      NumbersInOrder(rest, m, a, n, b);
      var x, y := rest + (ShowNat(m) + a), rest + (ShowNat(n) + b);
      assert x[0] == rest[0] && y[0] == rest[0];
      Regroup(t, d, rest, ShowNat(m) + a);
      Regroup(t, d, rest, ShowNat(n) + b);
      SameBeginning(t, d, x, y);
    }
  }

  lemma LastIsNotDigit(t: string, d: string, rest: string)
    requires d != "" && AllDigits(d)
    requires var p := t + (d + rest); !IsDigit(p[|p| - 1])
    ensures rest != "" && !IsDigit(rest[|rest| - 1])
  {
    var p, tail := t + (d + rest), d + rest;
    assert p[|p| - 1] == tail[|tail| - 1];
    forall i | 0 <= i < |d|
      ensures IsDigit(tail[i])
    {
      assert tail[i] == d[i];
    }
    assert tail[|tail| - 1] == rest[|rest| - 1];
  }
}
