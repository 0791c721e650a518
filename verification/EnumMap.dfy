/** The two maps of an enumeration: values to names, sorted by value, and a permutation that
    sorts the names; both are searched by bisection. */
module EnumMap {
  import opened Words
  import opened Wrappers

  datatype Entry = Entry(natValue: i64, name: string)

  /** `value2enum`, and `enum2value` that lists its indices in the order of the names. */
  datatype Specifics = Specifics(value2enum: seq<Entry>, enum2value: seq<nat>, strict: bool, isUnsigned: bool)

  const NUL: char := '\0'

  /** White space, '/' and '>' end a tag name. */
  predicate Delimiter(c: char) {
    var b := c as int;
    9 <= b <= 13 || b == 32 || b == 0x2f || b == 0x3e
  }

  predicate PlainName(s: string) {
    s != [] && forall i :: 0 <= i < |s| ==> s[i] != NUL && !Delimiter(s[i])
  }

  // ----- the order of names

  predicate Less(a: string, b: string) {
    b != [] && (a == [] || a[0] < b[0] || (a[0] == b[0] && Less(a[1..], b[1..])))
  }

  lemma {:induction false} LessTransitive(a: string, b: string, c: string)
    requires Less(a, b) && Less(b, c)
    ensures Less(a, c)
  {
    if a != [] && a[0] == b[0] && b[0] == c[0] {
      LessTransitive(a[1..], b[1..], c[1..]);
    }
  }

  lemma {:induction false} LessTotal(a: string, b: string)
    ensures Less(a, b) || a == b || Less(b, a)
    ensures !(Less(a, b) && Less(b, a)) && !Less(a, a)
  {
    if a != [] && b != [] && a[0] == b[0] {
      LessTotal(a[1..], b[1..]);
      if a[1..] == b[1..] {
        assert a == [a[0]] + a[1..] && b == [b[0]] + b[1..];
      }
    }
    if a != [] {
      LessTotal(a[1..], a[1..]);
    }
  }

  // ----- well-formed tables

  ghost predicate SortedByValue(sp: Specifics) {
    forall i, j :: 0 <= i < j < |sp.value2enum| ==> sp.value2enum[i].natValue < sp.value2enum[j].natValue
  }

  ghost predicate IsPermutation(p: seq<nat>, n: nat) {
    && |p| == n
    && (forall i :: 0 <= i < n ==> p[i] < n)
    && (forall k :: 0 <= k < n ==> k in p)
  }

  ghost predicate SortedByName(sp: Specifics) {
    var n := |sp.value2enum|;
    && IsPermutation(sp.enum2value, n)
    && (forall i, j :: 0 <= i < j < n ==>
          Less(sp.value2enum[sp.enum2value[i]].name, sp.value2enum[sp.enum2value[j]].name))
  }

  ghost predicate WellFormed(sp: Specifics) {
    && SortedByValue(sp) && SortedByName(sp)
    && forall i :: 0 <= i < |sp.value2enum| ==> PlainName(sp.value2enum[i].name)
  }

  // ----- bisection

  /** The comparator first answers "greater", then "equal", then "less" along the table. */
  ghost predicate Monotone(compar: nat -> int, n: nat) {
    forall i, j :: 0 <= i < j < n ==> (compar(j) >= 0 ==> compar(i) > 0) && (compar(i) <= 0 ==> compar(j) < 0)
  }

  method Bsearch(compar: nat -> int, n: nat) returns (r: Option<nat>)
    requires Monotone(compar, n)
    ensures r.Some? ==> r.value < n && compar(r.value) == 0
    ensures r.None? ==> forall i :: 0 <= i < n ==> compar(i) != 0
  {
    var l, u := 0, n;
    while l < u
      invariant 0 <= l <= u <= n
      invariant forall i :: 0 <= i < l ==> compar(i) > 0
      invariant forall i :: u <= i < n ==> compar(i) < 0
    {
      var idx := (l + u) / 2;
      var c := compar(idx);
      if c < 0 {
        u := idx;
      } else if c > 0 {
        l := idx + 1;
      } else {
        return Some(idx);
      }
    }
    r := None;
  }

  // ----- by name

  /** The octet at `i` of a NUL-terminated name. */
  function At(name: string, i: nat): char {
    if i < |name| then name[i] else NUL
  }

  /** `INTEGER__compar_enum2value` from position `i`. */
  function NameCompare(key: string, name: string, i: nat): int
    requires i <= |key|
    decreases |key| - i
  {
    if i == |key| then (if At(name, i) != NUL then -1 else 0)
    else if key[i] != At(name, i) || At(name, i) == NUL then key[i] as int - At(name, i) as int
    else NameCompare(key, name, i + 1)
  }

  function UpToNul(s: string): string {
    if s == [] || s[0] == NUL then [] else [s[0]] + UpToNul(s[1..])
  }

  predicate NulFree(s: string) {
    forall i :: 0 <= i < |s| ==> s[i] != NUL
  }

  lemma {:induction false} ShiftCompare(key: string, name: string, i: nat)
    requires 1 <= i <= |key| && name != []
    ensures NameCompare(key, name, i) == NameCompare(key[1..], name[1..], i - 1)
    decreases |key| - i
  {
    assert At(name, i) == At(name[1..], i - 1);
    if i < |key| {
      assert key[i] == key[1..][i - 1];
      ShiftCompare(key, name, i + 1);
    }
  }

  /** The comparison is lexicographic, with a key cut at an embedded NUL. */
  lemma {:induction false} NameCompareIsOrder(key: string, name: string)
    requires NulFree(name)
    ensures NameCompare(key, name, 0) < 0 <==> Less(UpToNul(key), name)
    ensures NameCompare(key, name, 0) > 0 <==> Less(name, UpToNul(key))
    ensures NameCompare(key, name, 0) == 0 <==> UpToNul(key) == name
  {
    var u := UpToNul(key);
    LessTotal(u, name);
    if key != [] && name != [] && key[0] == name[0] {
      assert u[1..] == UpToNul(key[1..]);
      ShiftCompare(key, name, 1);
      NameCompareIsOrder(key[1..], name[1..]);
      LessTotal(u[1..], name[1..]);
      if u[1..] == name[1..] {
        assert u == [u[0]] + u[1..] && name == [name[0]] + name[1..];
      }
    }
  }

  /** The end of the tag name that starts at `i`, or the length of the text. */
  function TagEnd(text: string, i: nat): (e: nat)
    requires i <= |text|
    ensures i <= e <= |text|
    ensures e < |text| ==> Delimiter(text[e])
    ensures forall k :: i <= k < e ==> !Delimiter(text[k])
    decreases |text| - i
  {
    if i == |text| || Delimiter(text[i]) then i else TagEnd(text, i + 1)
  }

  /** The first entry from `k` on with a given name. */
  function FindName(entries: seq<Entry>, name: string, k: nat): (r: Option<nat>)
    requires k <= |entries|
    ensures r.Some? ==> r.value < |entries| && entries[r.value].name == name
    ensures r.None? ==> forall i :: k <= i < |entries| ==> entries[i].name != name
    decreases |entries| - k
  {
    if k == |entries| then None
    else if entries[k].name == name then Some(k)
    else FindName(entries, name, k + 1)
  }

  /** What a lookup of the tag at the start of `text` means: the entry of that name, if the
      tag name is delimited and some entry has it. */
  function LookupTag(sp: Specifics, text: string): Option<nat>
    requires text != []
  {
    var e := TagEnd(text, 1);
    if e == |text| then None else FindName(sp.value2enum, UpToNul(text[1..e]), 0)
  }

  method MapEnum2Value(sp: Specifics, text: string) returns (r: Option<nat>)
    requires WellFormed(sp) && text != []
    ensures r == LookupTag(sp, text)
  {
    var count := |sp.value2enum|;
    if count == 0 {
      return None;
    }
    var lp := 1;
    while lp < |text|
      invariant 1 <= lp <= |text| && TagEnd(text, lp) == TagEnd(text, 1)
    {
      if Delimiter(text[lp]) {
        break;
      }
      lp := lp + 1;
    }
    if lp == |text| {
      return None;
    }
    var key := text[1..lp];
    var compar := (i: nat) =>
      if i < |sp.enum2value| && sp.enum2value[i] < |sp.value2enum|
      then NameCompare(key, sp.value2enum[sp.enum2value[i]].name, 0) else 0;
    NamesAreMonotone(sp, key, compar);
    var found := Bsearch(compar, count);
    if found.Some? {
      r := Some(sp.enum2value[found.value]);
      NameCompareIsOrder(key, sp.value2enum[r.value].name);
      NameIsFound(sp, r.value);
    } else {
      r := None;
      forall k | 0 <= k < count
        ensures sp.value2enum[k].name != UpToNul(key)
      {
        assert k in sp.enum2value;
        var i :| 0 <= i < count && sp.enum2value[i] == k;
        assert compar(i) != 0;
        NameCompareIsOrder(key, sp.value2enum[k].name);
      }
    }
  }

  lemma NamesAreMonotone(sp: Specifics, key: string, compar: nat -> int)
    requires WellFormed(sp)
    requires forall i :: 0 <= i < |sp.value2enum| ==>
      compar(i) == NameCompare(key, sp.value2enum[sp.enum2value[i]].name, 0)
    ensures Monotone(compar, |sp.value2enum|)
  {
    hide NameCompare, Less;
    var u := UpToNul(key);
    forall i, j | 0 <= i < j < |sp.value2enum|
      ensures (compar(j) >= 0 ==> compar(i) > 0) && (compar(i) <= 0 ==> compar(j) < 0)
    {
      var a, b := sp.value2enum[sp.enum2value[i]].name, sp.value2enum[sp.enum2value[j]].name;
      NameCompareIsOrder(key, a);
      NameCompareIsOrder(key, b);
      LessTotal(u, a);
      LessTotal(u, b);
      if u == b || Less(b, u) {
        if Less(b, u) {
          LessTransitive(a, b, u);
        }
      }
      if Less(u, a) {
        LessTransitive(u, a, b);
      }
    }
  }

  // ----- by value

  function ValueCompare(a: int, b: int): int {
    if a < b then -1 else if a == b then 0 else 1
  }

  /** The first entry from `k` on with a given value. */
  function FindValue(entries: seq<Entry>, value: int, k: nat): (r: Option<nat>)
    requires k <= |entries|
    ensures r.Some? ==> r.value < |entries| && entries[r.value].natValue == value
    ensures r.None? ==> forall i :: k <= i < |entries| ==> entries[i].natValue != value
    decreases |entries| - k
  {
    if k == |entries| then None
    else if entries[k].natValue == value then Some(k)
    else FindValue(entries, value, k + 1)
  }

  method MapValue2Enum(sp: Specifics, value: int) returns (r: Option<nat>)
    requires SortedByValue(sp)
    ensures r == FindValue(sp.value2enum, value, 0)
  {
    var count := |sp.value2enum|;
    if count == 0 {
      return None;
    }
    var compar := (i: nat) => if i < |sp.value2enum| then ValueCompare(value, sp.value2enum[i].natValue) else 0;
    r := Bsearch(compar, count);
    if r.None? {
      forall k | 0 <= k < count
        ensures sp.value2enum[k].natValue != value
      {
        assert compar(k) != 0;
      }
    }
  }

  // ----- the two maps are inverse

  lemma NamesAreDistinct(sp: Specifics, i: nat, j: nat)
    requires SortedByName(sp) && i < |sp.value2enum| && j < |sp.value2enum|
    requires sp.value2enum[i].name == sp.value2enum[j].name
    ensures i == j
  {
    hide Less;
    assert i in sp.enum2value && j in sp.enum2value;
    var p :| 0 <= p < |sp.enum2value| && sp.enum2value[p] == i;
    var q :| 0 <= q < |sp.enum2value| && sp.enum2value[q] == j;
    var a, b := sp.value2enum[sp.enum2value[p]].name, sp.value2enum[sp.enum2value[q]].name;
    LessTotal(a, b);
  }

  /** Names are unique, so any search finds the one entry of a name. */
  lemma NameIsFound(sp: Specifics, i: nat)
    requires SortedByName(sp) && i < |sp.value2enum|
    ensures FindName(sp.value2enum, sp.value2enum[i].name, 0) == Some(i)
  {
    var r := FindName(sp.value2enum, sp.value2enum[i].name, 0);
    if r.Some? {
      NamesAreDistinct(sp, i, r.value);
    }
  }

  lemma {:induction false} UpToNulOfPlain(s: string)
    requires NulFree(s)
    ensures UpToNul(s) == s
  {
    if s != [] {
      UpToNulOfPlain(s[1..]);
      assert s == [s[0]] + s[1..];
    }
  }

  lemma {:induction false} TagEndAt(text: string, i: nat, e: nat)
    requires i <= e < |text| && Delimiter(text[e]) && forall k :: i <= k < e ==> !Delimiter(text[k])
    ensures TagEnd(text, i) == e
    decreases e - i
  {
    if i < e {
      TagEndAt(text, i + 1, e);
    }
  }

  /** The empty-element tag with which an entry is printed. */
  function Tag(name: string): string {
    "<" + name + "/>"
  }

  /** Looking up the tag printed for an entry finds that entry. */
  lemma TagOfEntryFindsEntry(sp: Specifics, i: nat)
    requires WellFormed(sp) && i < |sp.value2enum|
    ensures LookupTag(sp, Tag(sp.value2enum[i].name)) == Some(i)
  {
    var name := sp.value2enum[i].name;
    var text := Tag(name);
    assert text[1 + |name|] == '/';
    forall k | 1 <= k < 1 + |name|
      ensures !Delimiter(text[k])
    {
      assert text[k] == name[k - 1];
    }
    TagEndAt(text, 1, 1 + |name|);
    assert text[1..1 + |name|] == name;
    UpToNulOfPlain(name);
    NameIsFound(sp, i);
  }

  // ----- what ends a tag

  predicate EndsTag(c: char) {
    || c == ' ' || c == '\t' || c == '\n' || c == '\r' || c == '/' || c == '>'
    || c as int == 11 || c as int == 12
  }

  lemma DelimiterIs(c: char)
    ensures Delimiter(c) <==> EndsTag(c)
  {}

  /** One character, the name of an entry, and anything behind what ends a tag. */
  lemma TagIsFound(sp: Specifics, text: string, e: nat, i: nat)
    requires WellFormed(sp) && i < |sp.value2enum|
    requires 1 <= e < |text| && EndsTag(text[e]) && text[1..e] == sp.value2enum[i].name
    ensures LookupTag(sp, text) == Some(i)
  {
    hide Less;
    var name := sp.value2enum[i].name;
    forall k | 1 <= k < e ensures !Delimiter(text[k]) {
      assert text[k] == name[k - 1];
    }
    DelimiterIs(text[e]);
    TagEndAt(text, 1, e);
    UpToNulOfPlain(name);
    NameIsFound(sp, i);
  }

  /** And nothing else finds an entry, except that a name is cut at an embedded NUL. */
  lemma TagOnly(sp: Specifics, text: string)
    requires text != [] && LookupTag(sp, text).Some?
    ensures var e := TagEnd(text, 1);
      && e < |text| && EndsTag(text[e]) && (forall k :: 1 <= k < e ==> !EndsTag(text[k]))
      && UpToNul(text[1..e]) == sp.value2enum[LookupTag(sp, text).value].name
  {
    var e := TagEnd(text, 1);
    DelimiterIs(text[e]);
    forall k | 1 <= k < e ensures !EndsTag(text[k]) {
      DelimiterIs(text[k]);
    }
  }
}
