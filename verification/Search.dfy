/**
  Bounded text search: the functions that the loops of `find_substr` and `find_value_span`
  are proved against, and the lemmas that say what a splice does to a search.

  A byte is a `char`; every theorem holds for all characters, so for all 256 byte values.
 */
module Search {
  import opened Options

  type Bytes = seq<char>

  lemma Assoc(a: Bytes, b: Bytes, c: Bytes)
    ensures (a + b) + c == a + (b + c)
  {
  }

  // ----- Leftmost occurrence -----

  ghost predicate OccursAt(s: Bytes, key: Bytes, i: nat) {
    i <= |s| && key <= s[i..]
  }

  function Shift(k: nat, r: Option<nat>): Option<nat> {
    match r
    case Some(i) => Some(k + i)
    case None => None
  }

  /** The start of the leftmost occurrence of `key`; an empty key is never found. */
  function Find(s: Bytes, key: Bytes): (r: Option<nat>)
    ensures r.Some? ==> r.value + |key| <= |s|
  {
    if key == [] || |key| > |s| then None
    else if key <= s then Some(0)
    else Shift(1, Find(s[1..], key))
  }

  lemma {:induction false} FindIsLeftmost(s: Bytes, key: Bytes)
    requires key != []
    ensures Find(s, key).Some? ==>
              && OccursAt(s, key, Find(s, key).value)
              && forall j: nat | j < Find(s, key).value :: !OccursAt(s, key, j)
    ensures Find(s, key).None? ==> forall j: nat :: !OccursAt(s, key, j)
  {
    if |key| <= |s| && !(key <= s) {
      var t := s[1..];
      FindIsLeftmost(t, key);
      forall j: nat | OccursAt(s, key, j) ensures j > 0 && OccursAt(t, key, j - 1) {
        assert s[0..] == s;
        OccursDrop(s, key, if j > 0 then j - 1 else 0);
      }
      if Find(t, key).Some? {
        OccursDrop(s, key, Find(t, key).value);
      }
    } else if key <= s {
      assert s[0..] == s;
    }
  }

  lemma OccursDrop(s: Bytes, key: Bytes, j: nat)
    requires s != []
    ensures OccursAt(s[1..], key, j) <==> OccursAt(s, key, j + 1)
  {
    if j < |s| {
      assert s[1..][j..] == s[j + 1..];
    }
  }

  /** The characterization has one solution: `Find` is the only leftmost search. */
  lemma FindIs(s: Bytes, key: Bytes, i: nat)
    requires key != [] && OccursAt(s, key, i)
    requires forall j: nat | j < i :: !OccursAt(s, key, j)
    ensures Find(s, key) == Some(i)
  {
    FindIsLeftmost(s, key);
  }

  /** Appending text never disturbs an occurrence that is already there. */
  lemma {:induction false} FindHit(a: Bytes, b: Bytes, key: Bytes)
    requires Find(a, key).Some?
    ensures Find(a + b, key) == Find(a, key)
  {
    if !(key <= a) {
      assert (a + b)[1..] == a[1..] + b;
      assert (a + b)[..|key|] == a[..|key|];
      FindHit(a[1..], b, key);
    } else {
      assert key <= a + b;
    }
  }

  /** No occurrence crosses the seam between `a` and `b`. */
  ghost predicate CleanSeam(a: Bytes, b: Bytes, key: Bytes) {
    forall i: nat | i < |a| < i + |key| :: !OccursAt(a + b, key, i)
  }

  /** Across a clean seam a search is the search of the left part, then of the right part. */
  lemma {:induction false} FindAcross(a: Bytes, b: Bytes, key: Bytes)
    requires key != [] && CleanSeam(a, b, key)
    ensures Find(a + b, key) ==
            if Find(a, key).Some? then Find(a, key) else Shift(|a|, Find(b, key))
  {
    if a == [] {
      assert a + b == b;
    } else if Find(a, key).Some? {
      FindHit(a, b, key);
    } else {
      var a' := a[1..];
      assert (a + b)[1..] == a' + b;
      NotPrefixAcross(a, b, key);
      assert CleanSeam(a', b, key) by {
        forall i: nat | i < |a'| < i + |key| ensures !OccursAt(a' + b, key, i) {
          assert !OccursAt(a + b, key, i + 1);
          OccursDrop(a + b, key, i);
        }
      }
      FindAcross(a', b, key);
    }
  }

  lemma NotPrefixAcross(a: Bytes, b: Bytes, key: Bytes)
    requires key != [] && CleanSeam(a, b, key) && a != [] && Find(a, key).None?
    ensures !(key <= a + b)
  {
    if |key| <= |a| {
      assert (a + b)[..|key|] == a[..|key|];
    } else {
      assert !OccursAt(a + b, key, 0);
    }
  }

  // ----- JSON keys -----

  /** The search text for a member: its quoted name and the colon. */
  function Key(name: Bytes): Bytes {
    "\"" + name + "\":"
  }

  predicate IsNameChar(c: char) {
    'a' <= c <= 'z' || '0' <= c <= '9' || c == '_'
  }

  /** The names the bridge searches for and writes: lower-case letters, digits, underscores. */
  predicate IsName(name: Bytes) {
    name != [] && forall i | 0 <= i < |name| :: IsNameChar(name[i])
  }

  lemma KeyChars(name: Bytes)
    ensures |Key(name)| == |name| + 3
    ensures Key(name)[0] == '\"' && Key(name)[|name| + 1] == '\"' && Key(name)[|name| + 2] == ':'
    ensures forall i | 0 <= i < |name| :: Key(name)[i + 1] == name[i]
  {
  }

  /** An occurrence of a key puts its characters where `KeyChars` says. */
  lemma OccurrenceChars(s: Bytes, name: Bytes, i: nat)
    ensures OccursAt(s, Key(name), i) ==>
              && i + |name| + 3 <= |s|
              && s[i] == '\"' && s[i + |name| + 1] == '\"' && s[i + |name| + 2] == ':'
              && forall j | i < j <= i + |name| :: s[j] == name[j - i - 1]
  {
    var k := Key(name);
    if OccursAt(s, k, i) {
      assert forall j | i <= j < i + |k| :: s[j] == s[i..i + |k|][j - i] == k[j - i];
    }
  }

  /** A search skips text in which no occurrence begins. */
  lemma FindSkips(w: Bytes, r: Bytes, key: Bytes)
    requires key != []
    requires forall i: nat | i < |w| :: !OccursAt(w + r, key, i)
    ensures Find(w + r, key) == Shift(|w|, Find(r, key))
  {
    FindAcross(w, r, key);
    FindIsLeftmost(w, key);
    forall i: nat | OccursAt(w, key, i) ensures OccursAt(w + r, key, i) {
      assert (w + r)[i..i + |key|] == w[i..i + |key|];
    }
  }

  /** A search for a key runs through text without quotes. */
  lemma FindSkipsQuoteFree(w: Bytes, r: Bytes, name: Bytes)
    requires '\"' !in w
    ensures Find(w + r, Key(name)) == Shift(|w|, Find(r, Key(name)))
  {
    forall i: nat | i < |w| ensures !OccursAt(w + r, Key(name), i) {
      assert (w + r)[i] == w[i];
      OccurrenceChars(w + r, name, i);
    }
    FindSkips(w, r, Key(name));
  }

  /** A search for one key runs through any other key, whatever follows it. */
  lemma FindSkipsKey(m: Bytes, r: Bytes, name: Bytes)
    requires '\"' !in m && IsName(name) && m != name
    ensures Find(Key(m) + r, Key(name)) == Shift(|Key(m)|, Find(r, Key(name)))
  {
    var s := Key(m) + r;
    assert IsNameChar(name[0]);
    forall i: nat | i < |Key(m)| ensures !OccursAt(s, Key(name), i) {
      OccurrenceChars(s, name, i);
      assert s[i] == Key(m)[i];
      if i == 0 {
        OtherNameDiffers(m, r, name);
      } else if i <= |m| {
        assert Key(m)[i] == m[i - 1];
      } else if i == |m| + 1 {
        assert s[i + 1] == ':';
      }
    }
    FindSkips(Key(m), r, Key(name));
  }

  lemma OtherNameDiffers(m: Bytes, r: Bytes, name: Bytes)
    requires '\"' !in m && IsName(name) && m != name
    ensures !OccursAt(Key(m) + r, Key(name), 0)
  {
    var s := Key(m) + r;
    OccurrenceChars(s, name, 0);
    assert s[|m| + 1] == '\"';
    assert forall j | 0 <= j < |m| :: s[j + 1] == m[j];
    assert |m| < |name| ==> IsNameChar(name[|m|]);
    assert |name| < |m| ==> s[|name| + 1] == m[|name|];
    if |name| == |m| {
      var j :| 0 <= j < |m| && m[j] != name[j];
      assert s[j + 1] == m[j];
    }
  }

  /** A key that begins right after `a` cannot hide inside an occurrence that began in `a`. */
  lemma FindBeforeKey(a: Bytes, m: Bytes, w: Bytes, name: Bytes)
    requires IsName(m) && IsName(name)
    ensures Find(a + (Key(m) + w), Key(name)) ==
            if Find(a, Key(name)).Some? then Find(a, Key(name))
            else Shift(|a|, Find(Key(m) + w, Key(name)))
  {
    var b := Key(m) + w;
    var s := a + b;
    assert s[|a|] == '\"' && s[|a| + 1] == m[0] && IsNameChar(m[0]);
    forall i: nat | i < |a| < i + |Key(name)| ensures !OccursAt(s, Key(name), i) {
      OccurrenceChars(s, name, i);
      assert |a| <= i + |name| ==> IsNameChar(name[|a| - i - 1]);
    }
    FindAcross(a, b, Key(name));
  }

  /** Likewise for a character that no key contains. */
  lemma FindBeforeForeign(a: Bytes, b: Bytes, name: Bytes)
    requires IsName(name)
    requires b == [] || (b[0] != '\"' && b[0] != ':' && !IsNameChar(b[0]))
    ensures Find(a + b, Key(name)) ==
            if Find(a, Key(name)).Some? then Find(a, Key(name))
            else Shift(|a|, Find(b, Key(name)))
  {
    var s := a + b;
    assert b != [] ==> s[|a|] == b[0];
    forall i: nat | i < |a| < i + |Key(name)| ensures !OccursAt(s, Key(name), i) {
      OccurrenceChars(s, name, i);
      assert |a| <= i + |name| ==> IsNameChar(name[|a| - i - 1]);
    }
    FindAcross(a, b, Key(name));
  }

  // ----- The value after a key -----

  predicate IsBlank(c: char) {
    c == ' ' || c == '\t'
  }

  predicate IsNumeric(c: char) {
    '0' <= c <= '9' || c == '.' || c == '-' || c == '+' || c == 'e' || c == 'E'
  }

  ghost predicate AllBlank(s: Bytes) {
    forall i | 0 <= i < |s| :: IsBlank(s[i])
  }

  ghost predicate AllNumeric(s: Bytes) {
    forall i | 0 <= i < |s| :: IsNumeric(s[i])
  }

  /** How many blanks `s` begins with. */
  function BlankRun(s: Bytes): (n: nat)
    ensures n <= |s|
  {
    if s == [] || !IsBlank(s[0]) then 0 else 1 + BlankRun(s[1..])
  }

  /** How many characters of a number `s` begins with. */
  function NumericRun(s: Bytes): (n: nat)
    ensures n <= |s|
  {
    if s == [] || !IsNumeric(s[0]) then 0 else 1 + NumericRun(s[1..])
  }

  lemma {:induction false} BlankRunMaximal(s: Bytes)
    ensures AllBlank(s[..BlankRun(s)])
    ensures BlankRun(s) < |s| ==> !IsBlank(s[BlankRun(s)])
  {
    if s != [] && IsBlank(s[0]) {
      BlankRunMaximal(s[1..]);
      assert s[..BlankRun(s)] == [s[0]] + s[1..][..BlankRun(s[1..])];
    }
  }

  lemma {:induction false} NumericRunMaximal(s: Bytes)
    ensures AllNumeric(s[..NumericRun(s)])
    ensures NumericRun(s) < |s| ==> !IsNumeric(s[NumericRun(s)])
  {
    if s != [] && IsNumeric(s[0]) {
      NumericRunMaximal(s[1..]);
      assert s[..NumericRun(s)] == [s[0]] + s[1..][..NumericRun(s[1..])];
    }
  }

  lemma {:induction false} BlankRunIs(a: Bytes, b: Bytes)
    requires AllBlank(a) && (b != [] ==> !IsBlank(b[0]))
    ensures BlankRun(a + b) == |a|
  {
    if a == [] {
      assert a + b == b;
    } else {
      assert (a + b)[1..] == a[1..] + b;
      BlankRunIs(a[1..], b);
    }
  }

  lemma {:induction false} NumericRunIs(a: Bytes, b: Bytes)
    requires AllNumeric(a) && (b != [] ==> !IsNumeric(b[0]))
    ensures NumericRun(a + b) == |a|
  {
    if a == [] {
      assert a + b == b;
    } else {
      assert (a + b)[1..] == a[1..] + b;
      NumericRunIs(a[1..], b);
    }
  }

  /** The text after a key's colon: blanks, then the number, then the rest. */
  datatype Tail = Tail(blanks: Bytes, value: Bytes, after: Bytes)

  function CutTail(rest: Bytes): Tail {
    var b := BlankRun(rest);
    var unblank := rest[b..];
    var v := NumericRun(unblank);
    Tail(rest[..b], unblank[..v], unblank[v..])
  }

  /** The value is as long as it can be. */
  ghost predicate IsTail(t: Tail) {
    && AllBlank(t.blanks) && AllNumeric(t.value)
    && (t.after != [] ==> !IsNumeric(t.after[0]))
    && (t.value == [] && t.after != [] ==> !IsBlank(t.after[0]))
  }

  function TailText(t: Tail): Bytes {
    t.blanks + (t.value + t.after)
  }

  lemma CutTailCuts(rest: Bytes)
    ensures IsTail(CutTail(rest)) && TailText(CutTail(rest)) == rest
  {
    hide BlankRun, NumericRun;
    var b := BlankRun(rest);
    BlankRunMaximal(rest);
    NumericRunMaximal(rest[b..]);
  }

  lemma CutTailIs(t: Tail)
    requires IsTail(t)
    ensures CutTail(TailText(t)) == t
  {
    var unblank := t.value + t.after;
    BlankRunIs(t.blanks, unblank);
    NumericRunIs(t.value, t.after);
    assert TailText(t)[..|t.blanks|] == t.blanks;
    assert TailText(t)[|t.blanks|..] == unblank;
    assert unblank[..|t.value|] == t.value;
    assert unblank[|t.value|..] == t.after;
  }

  /** A text cut at the leftmost occurrence of a key: before it, and after its colon. */
  datatype Field = Field(before: Bytes, tail: Tail)

  function Locate(s: Bytes, key: Bytes): Option<Field> {
    match Find(s, key)
    case None => None
    case Some(i) => Some(Field(s[..i], CutTail(s[i + |key|..])))
  }

  ghost predicate IsCut(s: Bytes, key: Bytes, f: Field) {
    && s == f.before + (key + TailText(f.tail))
    && Find(s, key) == Some(|f.before|)
    && IsTail(f.tail)
  }

  /** The located field is the one a reader would cut out. */
  lemma LocateCuts(s: Bytes, key: Bytes)
    requires key != []
    ensures Locate(s, key).Some? ==> IsCut(s, key, Locate(s, key).value)
  {
    hide Find, CutTail, IsTail, TailText;
    if Find(s, key).Some? {
      var i := Find(s, key).value;
      FindIsLeftmost(s, key);
      CutTailCuts(s[i + |key|..]);
      CutAt(s, key, i);
    }
  }

  lemma CutAt(s: Bytes, key: Bytes, i: nat)
    requires OccursAt(s, key, i)
    ensures s == s[..i] + (key + s[i + |key|..])
  {
    assert s[i..] == key + s[i + |key|..];
  }

  /** Locate is the only such cut, so a text built in this shape is cut where it was built. */
  lemma LocateIs(s: Bytes, key: Bytes, f: Field)
    requires key != [] && IsCut(s, key, f)
    ensures Locate(s, key) == Some(f)
  {
    hide Find, CutTail, IsTail, TailText;
    CutTailIs(f.tail);
    JoinThree(f.before, key, TailText(f.tail));
  }

  lemma JoinThree(a: Bytes, b: Bytes, c: Bytes)
    ensures (a + (b + c))[..|a|] == a
    ensures (a + (b + c))[|a| + |b|..] == c
  {
  }

  /** The text of the value after a key, if the key is there. */
  function ValueText(s: Bytes, key: Bytes): Option<Bytes> {
    match Locate(s, key)
    case Some(f) => Some(f.tail.value)
    case None => None
  }

  /** Neither extends a number nor the blanks before one. */
  predicate EndsValue(b: Bytes) {
    b != [] ==> !IsNumeric(b[0]) && !IsBlank(b[0])
  }

  /** Text appended after a located field only lengthens what is after its value. */
  lemma LocateHit(a: Bytes, b: Bytes, key: Bytes)
    requires key != [] && EndsValue(b) && Find(a, key).Some?
    ensures var f := Locate(a, key).value;
      Locate(a + b, key) == Some(f.(tail := f.tail.(after := f.tail.after + b)))
  {
    hide Locate, CutTail, Find, EndsValue;
    FindHit(a, b, key);
    var i := Find(a, key).value;
    LocateAt(a, key, i);
    LocateAt(a + b, key, i);
    CutTailExtends(a[i + |key|..], b);
    HitSlices(a, b, i, i + |key|);
  }

  lemma LocateAt(s: Bytes, key: Bytes, i: nat)
    requires Find(s, key) == Some(i)
    ensures i + |key| <= |s|
    ensures Locate(s, key) == Some(Field(s[..i], CutTail(s[i + |key|..])))
  {
  }

  lemma HitSlices(a: Bytes, b: Bytes, i: nat, k: nat)
    requires i <= k <= |a|
    ensures (a + b)[..i] == a[..i]
    ensures (a + b)[k..] == a[k..] + b
  {
  }

  lemma CutTailExtends(rest: Bytes, b: Bytes)
    requires EndsValue(b)
    ensures CutTail(rest + b) == CutTail(rest).(after := CutTail(rest).after + b)
  {
    CutTailCuts(rest);
    var t := CutTail(rest);
    var u := t.(after := t.after + b);
    assert TailText(u) == rest + b;
    CutTailIs(u);
  }

  /** A search that runs through `w` finds the field it would find without `w`. */
  lemma LocateShift(w: Bytes, r: Bytes, key: Bytes)
    requires key != [] && Find(w + r, key) == Shift(|w|, Find(r, key))
    ensures Locate(w + r, key) ==
            match Locate(r, key)
            case Some(f) => Some(f.(before := w + f.before))
            case None => None
  {
    hide CutTail, Find;
    if Find(r, key).Some? {
      ShiftSlices(w, r, Find(r, key).value, Find(r, key).value + |key|);
    }
  }

  lemma ShiftSlices(w: Bytes, r: Bytes, i: nat, k: nat)
    requires i <= k <= |r|
    ensures (w + r)[..|w| + i] == w + r[..i]
    ensures (w + r)[|w| + k..] == r[k..]
  {
  }

  /** Where a search splits at a seam, so does the value lookup. */
  lemma ValueAcross(a: Bytes, b: Bytes, key: Bytes)
    requires key != [] && EndsValue(b)
    requires Find(a + b, key) == if Find(a, key).Some? then Find(a, key) else Shift(|a|, Find(b, key))
    ensures ValueText(a + b, key) ==
            if Find(a, key).Some? then ValueText(a, key) else ValueText(b, key)
  {
    if Find(a, key).Some? {
      LocateHit(a, b, key);
    } else {
      LocateShift(a, b, key);
    }
  }

  /** A lookup of one name runs through a member with another name and a quote-free value. */
  lemma ValueSkipsMember(m: Bytes, w: Bytes, r: Bytes, name: Bytes)
    requires '\"' !in m && '\"' !in w && IsName(name) && m != name
    ensures Find(Key(m) + (w + r), Key(name)) == Shift(|Key(m)| + |w|, Find(r, Key(name)))
    ensures ValueText(Key(m) + (w + r), Key(name)) == ValueText(r, Key(name))
  {
    hide Find, CutTail;
    FindSkipsKey(m, w + r, name);
    LocateShift(Key(m), w + r, Key(name));
    ValueSkipsQuoteFree(w, r, name);
  }

  lemma ValueSkipsQuoteFree(w: Bytes, r: Bytes, name: Bytes)
    requires '\"' !in w
    ensures Find(w + r, Key(name)) == Shift(|w|, Find(r, Key(name)))
    ensures ValueText(w + r, Key(name)) == ValueText(r, Key(name))
  {
    FindSkipsQuoteFree(w, r, name);
    LocateShift(w, r, Key(name));
  }

  /** A key written after text in which it does not occur is found where it was written. */
  lemma LocateWritten(a: Bytes, name: Bytes, t: Tail)
    requires IsName(name) && Find(a, Key(name)).None? && IsTail(t)
    ensures Locate(a + (Key(name) + TailText(t)), Key(name)) == Some(Field(a, t))
  {
    hide IsTail, TailText, Locate;
    FindBeforeKey(a, name, TailText(t), name);
    assert Key(name) <= Key(name) + TailText(t);
    LocateIs(a + (Key(name) + TailText(t)), Key(name), Field(a, t));
  }
}
