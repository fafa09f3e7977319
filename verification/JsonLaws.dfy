/** Searching and editing the text of a JSON tree finds and edits the tree. */
module JsonLaws {
  import opened Options
  import opened Search
  import opened Decimal
  import opened FrameText
  import opened Json
  import opened FrameLaws

  // ----- An edited tree prints the edited text -----

  /** The text around a hit. */
  ghost function HitText(name: Bytes, h: Hit): Bytes {
    h.before + (Key(name) + (h.gap + Show(h.value, h.after)))
  }

  /** A tree and its edit print as the hit and its edit do. */
  ghost predicate Prints(o: Option<Hit>, name: Bytes, e: Edit, shown: Bytes, edited: Bytes) {
    o.Some? && shown == HitText(name, o.value) && edited == EditText(e, name, o.value)
  }

  lemma PrintsBehind(front: Bytes, o: Option<Hit>, name: Bytes, e: Edit, shown: Bytes, edited: Bytes)
    requires Prints(o, name, e, shown, edited)
    ensures Prints(Behind(front, o), name, e, front + shown, front + edited)
  {
    hide Key, Show;
    var h := o.value;
    Assoc(front, h.before, Key(name) + (h.gap + Show(h.value, h.after)));
    match e
    case SetNumber(t) => Assoc(front, h.before, Key(name) + (h.gap + (t + h.after)));
    case Rename(renamed, ms) => Assoc(front, h.before, Key(renamed) + Show(h.value, Members(ms) + h.after));
  }

  lemma {:induction false} EditShows(v: Tree, name: Bytes, e: Edit, tail: Bytes)
    requires Has(v, name)
    ensures Prints(First(v, name, tail), name, e, Show(v, tail), Show(EditFirst(v, name, e), tail))
    decreases v
  {
    match v
    case Array(pad, items) =>
      EditItemShows(items, name, e, "]" + tail);
      hide Prints;
      PrintsBehind("[" + pad, FirstItem(items, name, "]" + tail), name, e,
                   ShowItems(items, "]" + tail), ShowItems(EditItem(items, name, e), "]" + tail));
      Assoc("[", pad, ShowItems(items, "]" + tail));
      Assoc("[", pad, ShowItems(EditItem(items, name, e), "]" + tail));
    case Object(pad, entries) =>
      EditEntryShows(entries, name, e, "}" + tail);
      hide Prints;
      PrintsBehind("{" + pad, FirstEntry(entries, name, "}" + tail), name, e,
                   ShowEntries(entries, "}" + tail), ShowEntries(EditEntry(entries, name, e), "}" + tail));
      Assoc("{", pad, ShowEntries(entries, "}" + tail));
      Assoc("{", pad, ShowEntries(EditEntry(entries, name, e), "}" + tail));
  }

  /** A value whose search goes on behind it: what is shown after it moves out of its text. */
  lemma ShowThenMore(v: Tree, post: Bytes, y: Bytes)
    ensures Show(v, post + ("," + y)) == Show(v, post + ",") + y
  {
    Assoc(post, ",", y);
    ShowTail(v, post + ",", y);
  }

  lemma {:induction false} NoHit(v: Tree, name: Bytes, tail: Bytes)
    ensures First(v, name, tail).Some? <==> Has(v, name)
    decreases v
  {
    match v
    case Scalar(_) =>
    case Text(_) =>
    case Array(_, items) => NoItemHit(items, name, "]" + tail);
    case Object(_, entries) => NoEntryHit(entries, name, "}" + tail);
  }

  lemma {:induction false} NoItemHit(xs: Items, name: Bytes, tail: Bytes)
    ensures FirstItem(xs, name, tail).Some? <==> HasItem(xs, name)
    decreases xs
  {
    if xs.Item? {
      NoHit(xs.value, name, xs.post + MoreItems(xs.rest, tail));
      NoItemHit(xs.rest, name, tail);
    }
  }

  lemma {:induction false} NoEntryHit(es: Entries, name: Bytes, tail: Bytes)
    ensures FirstEntry(es, name, tail).Some? <==> HasEntry(es, name)
    decreases es
  {
    if es.Entry? {
      NoHit(es.value, name, es.post + MoreEntries(es.rest, tail));
      NoEntryHit(es.rest, name, tail);
    }
  }

  lemma {:induction false} EditItemShows(xs: Items, name: Bytes, e: Edit, tail: Bytes)
    requires HasItem(xs, name)
    ensures Prints(FirstItem(xs, name, tail), name, e, ShowItems(xs, tail), ShowItems(EditItem(xs, name, e), tail))
    decreases xs
  {
    var more := xs.post + MoreItems(xs.rest, tail);
    NoHit(xs.value, name, more);
    if Has(xs.value, name) {
      EditShows(xs.value, name, e, more);
      hide Prints;
      PrintsBehind(xs.pre, First(xs.value, name, more), name, e,
                   Show(xs.value, more), Show(EditFirst(xs.value, name, e), more));
    } else {
      EditItemShows(xs.rest, name, e, tail);
      var front := xs.pre + Show(xs.value, xs.post + ",");
      var (y, y') := (ShowItems(xs.rest, tail), ShowItems(EditItem(xs.rest, name, e), tail));
      hide Prints;
      PrintsBehind(front, FirstItem(xs.rest, name, tail), name, e, y, y');
      ShowThenMore(xs.value, xs.post, y);
      ShowThenMore(xs.value, xs.post, y');
      Assoc(xs.pre, Show(xs.value, xs.post + ","), y);
      Assoc(xs.pre, Show(xs.value, xs.post + ","), y');
    }
  }

  lemma FrontAssoc(a: Bytes, k: Bytes, g: Bytes, x: Bytes, y: Bytes)
    ensures (a + (k + g)) + y == a + (k + (g + y))
    ensures (a + (k + (g + x))) + y == a + (k + (g + (x + y)))
  {
  }

  lemma {:induction false} EditEntryShows(es: Entries, name: Bytes, e: Edit, tail: Bytes)
    requires HasEntry(es, name)
    ensures Prints(FirstEntry(es, name, tail), name, e,
                   ShowEntries(es, tail), ShowEntries(EditEntry(es, name, e), tail))
    decreases es
  {
    hide Key;
    var more := es.post + MoreEntries(es.rest, tail);
    NoHit(es.value, name, more);
    if es.name == name {
      ApplyShows(es, e, tail);
    } else if Has(es.value, name) {
      EditShows(es.value, name, e, more);
      var front := es.pre + (Key(es.name) + es.gap);
      var (y, y') := (Show(es.value, more), Show(EditFirst(es.value, name, e), more));
      hide Prints;
      PrintsBehind(front, First(es.value, name, more), name, e, y, y');
      FrontAssoc(es.pre, Key(es.name), es.gap, [], y);
      FrontAssoc(es.pre, Key(es.name), es.gap, [], y');
    } else {
      EditEntryShows(es.rest, name, e, tail);
      var x := Show(es.value, es.post + ",");
      var front := es.pre + (Key(es.name) + (es.gap + x));
      var (y, y') := (ShowEntries(es.rest, tail), ShowEntries(EditEntry(es.rest, name, e), tail));
      hide Prints;
      PrintsBehind(front, FirstEntry(es.rest, name, tail), name, e, y, y');
      ShowThenMore(es.value, es.post, y);
      ShowThenMore(es.value, es.post, y');
      FrontAssoc(es.pre, Key(es.name), es.gap, x, y);
      FrontAssoc(es.pre, Key(es.name), es.gap, x, y');
    }
  }

  /** The edited entry itself. */
  lemma ApplyShows(es: Entries, e: Edit, tail: Bytes)
    requires es.Entry?
    ensures var more := es.post + MoreEntries(es.rest, tail);
      Prints(Some(Hit(es.pre, es.gap, es.value, more)), es.name, e,
             ShowEntries(es, tail), ShowEntries(Apply(e, es), tail))
  {
    var more := es.post + MoreEntries(es.rest, tail);
    match e
    case SetNumber(t) =>
    case Rename(renamed, ms) =>
      assert [] + Show(es.value, Members(ms) + more) == Show(es.value, Members(ms) + more);
      if ms == [] {
        assert [] + more == more;
      } else {
        AddedShows(ms, es.post, es.rest, tail);
        assert [] + ("," + ShowEntries(AddedEntries(ms, es.post, es.rest), tail)) == Members(ms) + more;
      }
  }

  lemma {:induction false} AddedShows(ms: seq<Added>, post: Bytes, rest: Entries, tail: Bytes)
    requires ms != []
    ensures "," + ShowEntries(AddedEntries(ms, post, rest), tail) == Members(ms) + (post + MoreEntries(rest, tail))
    ensures AddedEntries(ms, post, rest).Entry?
  {
    hide Key, Members;
    var more := post + MoreEntries(rest, tail);
    MembersCons(ms, more);
    if |ms| == 1 {
      assert ms[1..] == [];
      MembersEnd(more);
      ScalarEntryShows(ms[0], post, rest, tail);
    } else {
      AddedShows(ms[1..], post, rest, tail);
      ScalarEntryShows(ms[0], [], AddedEntries(ms[1..], post, rest), tail);
      hide ShowEntries;
    }
  }

  lemma MembersEnd(more: Bytes)
    ensures Members([]) + more == more
  {
  }

  lemma ScalarEntryShows(m: Added, post: Bytes, rest: Entries, tail: Bytes)
    ensures ShowEntries(Entry([], m.name, [], Scalar(m.text), post, rest), tail)
         == Key(m.name) + (m.text + (post + MoreEntries(rest, tail)))
    ensures [] + MoreEntries(rest, tail) == MoreEntries(rest, tail)
  {
    hide Key;
    EmptyFronts(Key(m.name), m.text + (post + MoreEntries(rest, tail)));
  }

  lemma EmptyFronts(k: Bytes, x: Bytes)
    ensures [] + (k + ([] + x)) == k + x
  {
  }

  // ----- A text search finds the leftmost member -----

  /** What can follow a value: nothing, white space, a comma, a closing bracket. */
  predicate IsDelimiter(c: char) {
    IsWhite(c) || c == ',' || c == ']' || c == '}'
  }

  predicate Delimits(tail: Bytes) {
    tail != [] ==> IsDelimiter(tail[0])
  }

  lemma DelimiterEndsNumber(tail: Bytes)
    requires Delimits(tail)
    ensures tail != [] ==> !IsNumeric(tail[0]) && !IsNameChar(tail[0]) && tail[0] != ':' && tail[0] != '\"'
  {
  }

  lemma PostDelimits(post: Bytes, more: Bytes)
    requires White(post) && Delimits(more)
    ensures Delimits(post + more)
  {
    assert post != [] ==> (post + more)[0] == post[0];
    assert post == [] ==> post + more == more;
  }

  lemma WhiteIsQuoteFree(s: Bytes)
    requires White(s)
    ensures '\"' !in s
  {
  }

  lemma StringIsQuoteFree(s: Bytes)
    requires PlainString(s)
    ensures '\"' !in s
  {
  }

  function Width(v: Tree): nat
    decreases v
  {
    match v
    case Scalar(t) => |t|
    case Text(s) => |s| + 2
    case Array(pad, items) => |pad| + ItemsWidth(items) + 2
    case Object(pad, entries) => |pad| + EntriesWidth(entries) + 2
  }

  function ItemsWidth(xs: Items): nat
    decreases xs
  {
    match xs
    case NoItems => 0
    case Item(pre, v, post, rest) =>
      |pre| + Width(v) + |post| + (if rest.NoItems? then 0 else 1 + ItemsWidth(rest))
  }

  function EntriesWidth(es: Entries): nat
    decreases es
  {
    match es
    case NoEntries => 0
    case Entry(pre, n, gap, v, post, rest) =>
      |pre| + |Key(n)| + |gap| + Width(v) + |post| + (if rest.NoEntries? then 0 else 1 + EntriesWidth(rest))
  }

  lemma {:induction false} ShowWidth(v: Tree, t: Bytes)
    ensures |Show(v, t)| == Width(v) + |t|
    decreases v
  {
    match v
    case Scalar(_) =>
    case Text(_) =>
    case Array(_, items) => ShowItemsWidth(items, "]" + t);
    case Object(_, entries) => ShowEntriesWidth(entries, "}" + t);
  }

  lemma {:induction false} ShowItemsWidth(xs: Items, t: Bytes)
    ensures |ShowItems(xs, t)| == ItemsWidth(xs) + |t|
    decreases xs
  {
    if xs.Item? {
      ShowWidth(xs.value, xs.post + MoreItems(xs.rest, t));
      ShowItemsWidth(xs.rest, t);
    }
  }

  lemma {:induction false} ShowEntriesWidth(es: Entries, t: Bytes)
    ensures |ShowEntries(es, t)| == EntriesWidth(es) + |t|
    decreases es
  {
    if es.Entry? {
      ShowWidth(es.value, es.post + MoreEntries(es.rest, t));
      ShowEntriesWidth(es.rest, t);
    }
  }

  /** A search of `text` ends at `start`, or runs `width` characters to `tail`. */
  ghost predicate Finds(text: Bytes, name: Bytes, start: Option<nat>, width: nat, tail: Bytes) {
    Find(text, Key(name)) == if start.Some? then start else Shift(width, Find(tail, Key(name)))
  }

  function StartOf(o: Option<Hit>): Option<nat> {
    match o
    case Some(h) => Some(|h.before|)
    case None => None
  }

  lemma StartBehind(w: Bytes, o: Option<Hit>)
    ensures StartOf(Behind(w, o)) == Shift(|w|, StartOf(o))
  {
  }

  /** Quote-free text in front. */
  lemma FindsBehind(w: Bytes, text: Bytes, name: Bytes, start: Option<nat>, width: nat, tail: Bytes)
    requires '\"' !in w && Finds(text, name, start, width, tail)
    ensures Finds(w + text, name, Shift(|w|, start), |w| + width, tail)
  {
    hide Find, Key;
    FindSkipsQuoteFree(w, text, name);
  }

  /** Another key in front. */
  lemma FindsBehindKey(m: Bytes, text: Bytes, name: Bytes, start: Option<nat>, width: nat, tail: Bytes)
    requires '\"' !in m && IsName(name) && m != name && Finds(text, name, start, width, tail)
    ensures Finds(Key(m) + text, name, Shift(|Key(m)|, start), |Key(m)| + width, tail)
  {
    hide Find, Key;
    FindSkipsKey(m, text, name);
  }

  /** Text without the name in front. */
  lemma FindsBeyond(text: Bytes, name: Bytes, width: nat, more: Bytes, start: Option<nat>, rest: nat, tail: Bytes)
    requires Finds(text, name, None, width, more) && Finds(more, name, start, rest, tail)
    ensures Finds(text, name, Shift(width, start), width + rest, tail)
  {
    hide Find, Key;
  }

  /** Once there is a hit, what follows the text does not matter. */
  lemma FindsHit(text: Bytes, name: Bytes, start: Option<nat>, width: nat, tail: Bytes, width': nat, tail': Bytes)
    requires start.Some? && Finds(text, name, start, width, tail)
    ensures Finds(text, name, start, width', tail')
  {
  }

  lemma FindsNothing(name: Bytes, tail: Bytes)
    ensures Finds(tail, name, None, 0, tail)
  {
    hide Find, Key;
  }

  /** A string is never a key: its closing quote is not followed by a colon. */
  lemma FindSkipsString(s: Bytes, tail: Bytes, name: Bytes)
    requires '\"' !in s && Delimits(tail) && IsName(name)
    ensures Find("\"" + (s + ("\"" + tail)), Key(name)) == Shift(|s| + 2, Find(tail, Key(name)))
  {
    var w := "\"" + (s + "\"");
    var text := w + tail;
    assert text == "\"" + (s + ("\"" + tail));
    DelimiterEndsNumber(tail);
    assert IsNameChar(name[0]);
    forall i: nat | i < |w| ensures !OccursAt(text, Key(name), i) {
      OccurrenceChars(text, name, i);
      assert text[i] == w[i];
      if i == 0 {
        StringIsNotKey(s, tail, name);
      } else if i <= |s| {
        assert w[i] == s[i - 1];
      } else {
        assert tail != [] ==> text[i + 1] == tail[0];
      }
    }
    FindSkips(w, tail, Key(name));
  }

  lemma StringIsNotKey(s: Bytes, tail: Bytes, name: Bytes)
    requires '\"' !in s && Delimits(tail) && IsName(name)
    ensures !OccursAt(("\"" + (s + "\"")) + tail, Key(name), 0)
  {
    var text := ("\"" + (s + "\"")) + tail;
    OccurrenceChars(text, name, 0);
    assert text[|s| + 1] == '\"';
    assert tail != [] ==> text[|s| + 2] == tail[0];
    assert |s| < |name| ==> IsNameChar(name[|s|]);
    assert |name| < |s| ==> text[|name| + 1] == s[|name|];
  }

  // ----- Numbers -----

  lemma DigitsAreNumeric(s: Bytes, n: nat)
    requires n <= DigitRun(s)
    ensures AllNumeric(s[..n])
  {
    assert forall i | 0 <= i < n :: s[i] == s[..DigitRun(s)][i];
  }

  lemma NumericJoin(s: Bytes, n: nat)
    requires n <= |s| && AllNumeric(s[..n]) && AllNumeric(s[n..])
    ensures AllNumeric(s)
  {
    assert s == s[..n] + s[n..];
  }

  lemma ExponentIsNumeric(s: Bytes)
    requires IsExponent(s)
    ensures AllNumeric(s)
  {
    if s != [] {
      var k := if s[1] == '-' || s[1] == '+' then 2 else 1;
      var ds := s[k..];
      DigitsAreNumeric(ds, |ds|);
      assert ds[..|ds|] == ds;
      NumericJoin(s, k);
    }
  }

  lemma FractionIsNumeric(s: Bytes)
    requires IsFraction(s)
    ensures AllNumeric(s)
  {
    if s != [] && s[0] == '.' {
      var u := s[1..];
      DigitsAreNumeric(u, DigitRun(u));
      ExponentIsNumeric(u[DigitRun(u)..]);
      NumericJoin(u, DigitRun(u));
      NumericJoin(s, 1);
    } else {
      ExponentIsNumeric(s);
    }
  }

  /** A JSON number is one run of the characters that the value scan accepts. */
  lemma NumberIsNumeric(s: Bytes)
    requires IsNumber(s)
    ensures AllNumeric(s) && s != []
  {
    var k := if s != [] && s[0] == '-' then 1 else 0;
    var u := s[k..];
    assert s[0..] == s;
    DigitsAreNumeric(u, DigitRun(u));
    FractionIsNumeric(u[DigitRun(u)..]);
    NumericJoin(u, DigitRun(u));
    NumericJoin(s, k);
  }

  /** What the bridge prints is a JSON number. */
  lemma PrintIsNumber(x: real, k: nat)
    requires k >= 1
    ensures IsNumber(Print(x, k))
  {
    hide Units, Digits, LastDigits, DropDigits, Value;
    var m := Units(x, k);
    var head, frac := Digits(DropDigits(m, k)), LastDigits(m, k);
    DigitsValue(DropDigits(m, k));
    SplitDigitsValue(m, k);
    SingleDigit(DropDigits(m, k));
    var u := Unsigned(m, k);
    DigitRunIs(head, "." + frac);
    assert u[|head|..] == "." + frac;
    assert ("." + frac)[1..] == frac;
    assert AllDigits(frac) by {
      assert forall i | 0 <= i < |frac| :: frac[i] == (head + frac)[|head| + i];
    }
    DigitRunIs(frac, []);
    assert frac + [] == frac && frac[k..] == [];
    assert ("-" + u)[1..] == u;
    assert u[0] == head[0];
  }

  lemma SingleDigit(n: nat)
    ensures n < 10 ==> |Digits(n)| == 1
  {
  }

  lemma ScalarIsQuoteFree(t: Bytes)
    requires IsScalar(t)
    ensures '\"' !in t
  {
    if IsNumber(t) { NumberIsNumeric(t); }
  }

  // ----- The search -----

  /** In a well-formed tree a text search for a key runs to the leftmost member of that name, or
      through the whole text of the tree. */
  lemma {:induction false} FindsFirst(v: Tree, name: Bytes, tail: Bytes)
    requires WellFormed(v) && IsName(name) && Delimits(tail)
    ensures Finds(Show(v, tail), name, StartOf(First(v, name, tail)), Width(v), tail)
    decreases v
  {
    hide Find, Key, Finds, ShowItems, ShowEntries, FirstItem, FirstEntry, ItemsWidth, EntriesWidth,
         WellFormedItems, WellFormedEntries;
    match v
    case Scalar(t) => FindsBehindScalar(t, tail, name);
    case Text(s) => FindsBehindString(s, tail, name);
    case Array(pad, items) =>
      FindsFirstItem(items, name, "]" + tail);
      WhiteIsQuoteFree(pad);
      var o := FirstItem(items, name, "]" + tail);
      FindsBehindBracket(pad, ShowItems(items, "]" + tail), name, o, ItemsWidth(items), tail, '[', ']');
    case Object(pad, entries) =>
      FindsFirstEntry(entries, name, "}" + tail);
      WhiteIsQuoteFree(pad);
      var o := FirstEntry(entries, name, "}" + tail);
      FindsBehindBracket(pad, ShowEntries(entries, "}" + tail), name, o, EntriesWidth(entries), tail, '{', '}');
  }

  lemma FindsBehindScalar(t: Bytes, tail: Bytes, name: Bytes)
    requires IsScalar(t)
    ensures Finds(t + tail, name, None, |t|, tail)
  {
    hide Find, Key;
    ScalarIsQuoteFree(t);
    FindSkipsQuoteFree(t, tail, name);
  }

  lemma FindsBehindString(s: Bytes, tail: Bytes, name: Bytes)
    requires PlainString(s) && Delimits(tail) && IsName(name)
    ensures Finds("\"" + (s + ("\"" + tail)), name, None, |s| + 2, tail)
  {
    hide Find, Key;
    StringIsQuoteFree(s);
    FindSkipsString(s, tail, name);
  }

  lemma FindsBehindBracket(pad: Bytes, text: Bytes, name: Bytes, o: Option<Hit>, width: nat, tail: Bytes,
                           open: char, close: char)
    requires '\"' !in pad && open != '\"' && close != '\"' && Finds(text, name, StartOf(o), width, [close] + tail)
    ensures Finds([open] + (pad + text), name, StartOf(Behind([open] + pad, o)), |pad| + width + 2, tail)
  {
    hide Find, Key, Finds;
    FindsNothing(name, tail);
    FindsBehind([close], tail, name, None, 0, tail);
    if o.Some? {
      FindsHit(text, name, StartOf(o), width, [close] + tail, width + 1, tail);
    } else {
      FindsBeyond(text, name, width, [close] + tail, None, 1, tail);
    }
    FindsBehind(pad, text, name, StartOf(o), width + 1, tail);
    FindsBehind([open], pad + text, name, Shift(|pad|, StartOf(o)), |pad| + width + 1, tail);
  }

  lemma {:induction false} FindsFirstItem(xs: Items, name: Bytes, tail: Bytes)
    requires WellFormedItems(xs) && IsName(name) && Delimits(tail)
    ensures Finds(ShowItems(xs, tail), name, StartOf(FirstItem(xs, name, tail)), ItemsWidth(xs), tail)
    decreases xs
  {
    hide First, FirstItem, Show, ShowItems, MoreItems, Width, ItemsWidth, Finds,
         WellFormed, WellFormedItems, Delimits, IsName;
    if xs.NoItems? {
      EndUnfolds(name, tail);
      FindsNothing(name, tail);
    } else {
      var (pre, v, post, rest) := (xs.pre, xs.value, xs.post, xs.rest);
      var more := MoreItems(rest, tail);
      ItemParts(xs, tail);
      FindsFirst(v, name, post + more);
      FindsFirstItem(rest, name, tail);
      ItemUnfolds(xs, name, tail);
      var (first, o) := (First(v, name, post + more), FirstItem(rest, name, tail));
      var shown := Show(v, post + more);
      FindsMember(shown, StartOf(first), Width(v), post, ShowItems(rest, tail), rest.NoItems?,
                  name, StartOf(o), ItemsWidth(rest), tail);
      StartOfMember(v, post, first, o, pre);
      FindsBehind(pre, shown, name, StartIn(first, Width(v) + |post|, o), ItemsWidth(xs) - |pre|, tail);
    }
  }

  lemma ItemParts(xs: Items, tail: Bytes)
    requires xs.Item? && WellFormedItems(xs) && Delimits(tail)
    ensures '\"' !in xs.pre && '\"' !in xs.post && WellFormed(xs.value) && WellFormedItems(xs.rest)
    ensures Delimits(xs.post + MoreItems(xs.rest, tail))
  {
    hide WellFormed;
    WhiteIsQuoteFree(xs.pre);
    WhiteIsQuoteFree(xs.post);
    PostDelimits(xs.post, MoreItems(xs.rest, tail));
  }

  lemma EntryParts(es: Entries, tail: Bytes)
    requires es.Entry? && WellFormedEntries(es) && Delimits(tail)
    ensures '\"' !in es.pre && '\"' !in es.name && '\"' !in es.gap && '\"' !in es.post
    ensures WellFormed(es.value) && WellFormedEntries(es.rest)
    ensures Delimits(es.post + MoreEntries(es.rest, tail))
  {
    hide WellFormed;
    WhiteIsQuoteFree(es.pre);
    WhiteIsQuoteFree(es.gap);
    WhiteIsQuoteFree(es.post);
    StringIsQuoteFree(es.name);
    PostDelimits(es.post, MoreEntries(es.rest, tail));
  }

  lemma ItemUnfolds(xs: Items, name: Bytes, tail: Bytes)
    requires xs.Item?
    ensures var (pre, v, post, rest) := (xs.pre, xs.value, xs.post, xs.rest);
      var more := MoreItems(rest, tail);
      var (first, o) := (First(v, name, post + more), FirstItem(rest, name, tail));
      && ShowItems(xs, tail) == pre + Show(v, post + more)
      && more == (if rest.NoItems? then tail else "," + ShowItems(rest, tail))
      && ItemsWidth(xs) == |pre| + Width(v) + |post| + (if rest.NoItems? then 0 else 1 + ItemsWidth(rest))
      && FirstItem(xs, name, tail)
         == (if first.Some? then Behind(pre, first) else Behind(pre + Show(v, post + ","), o))
      && (rest.NoItems? ==> o.None?)
  {
    hide First, Show, Width;
  }

  /** Where a list's search ends: in its first value, or behind that value and a comma. */
  function StartIn(first: Option<Hit>, width: nat, o: Option<Hit>): Option<nat> {
    if first.Some? then StartOf(first) else Shift(width + 1, StartOf(o))
  }

  lemma StartOfMember(v: Tree, post: Bytes, first: Option<Hit>, o: Option<Hit>, front: Bytes)
    ensures StartOf(if first.Some? then Behind(front, first) else Behind(front + Show(v, post + ","), o))
         == Shift(|front|, StartIn(first, Width(v) + |post|, o))
  {
    hide Show, Width, StartOf, Behind;
    var shown := Show(v, post + ",");
    ShowWidth(v, post + ",");
    if first.Some? { StartBehind(front, first); } else { StartBehind(front + shown, o); }
  }

  /** One value of a list: the hit is in it, or the search goes on behind it and the comma. */
  lemma FindsMember(shown: Bytes, first: Option<nat>, w: nat, post: Bytes, text: Bytes, end: bool,
                    name: Bytes, o: Option<nat>, width: nat, tail: Bytes)
    requires '\"' !in post && (end ==> o.None?)
    requires Finds(shown, name, first, w, post + if end then tail else "," + text)
    requires !end ==> Finds(text, name, o, width, tail)
    ensures Finds(shown, name, if first.Some? then first else Shift(w + |post| + 1, o),
                  w + |post| + (if end then 0 else 1 + width), tail)
  {
    hide Finds;
    var more := if end then tail else "," + text;
    if first.Some? {
      FindsHit(shown, name, first, w, post + more, w + |post| + (if end then 0 else 1 + width), tail);
    } else if end {
      FindsNothing(name, tail);
      FindsBehind(post, more, name, None, 0, tail);
      FindsBeyond(shown, name, w, post + more, None, |post|, tail);
    } else {
      FindsBehind(",", text, name, o, width, tail);
      FindsBehind(post, more, name, Shift(1, o), 1 + width, tail);
      FindsBeyond(shown, name, w, post + more, Shift(|post|, Shift(1, o)), |post| + (1 + width), tail);
    }
  }

  lemma {:induction false} FindsFirstEntry(es: Entries, name: Bytes, tail: Bytes)
    requires WellFormedEntries(es) && IsName(name) && Delimits(tail)
    ensures Finds(ShowEntries(es, tail), name, StartOf(FirstEntry(es, name, tail)), EntriesWidth(es), tail)
    decreases es
  {
    hide First, FirstEntry, Show, ShowEntries, MoreEntries, Width, EntriesWidth, Finds,
         WellFormed, WellFormedEntries, Delimits, IsName, Key;
    if es.NoEntries? {
      EndUnfolds(name, tail);
      FindsNothing(name, tail);
    } else if es.name == name {
      EntryParts(es, tail);
      HitUnfolds(es, tail);
      FindsWritten(es.pre, name, es.gap + Show(es.value, es.post + MoreEntries(es.rest, tail)), EntriesWidth(es), tail);
    } else {
      var (pre, n, gap, v, post, rest) := (es.pre, es.name, es.gap, es.value, es.post, es.rest);
      var more := MoreEntries(rest, tail);
      EntryParts(es, tail);
      FindsFirst(v, name, post + more);
      FindsFirstEntry(rest, name, tail);
      EntryUnfolds(es, name, tail);
      var (first, o) := (First(v, name, post + more), FirstEntry(rest, name, tail));
      var shown := Show(v, post + more);
      FindsMember(shown, StartOf(first), Width(v), post, ShowEntries(rest, tail), rest.NoEntries?,
                  name, StartOf(o), EntriesWidth(rest), tail);
      StartOfMember(v, post, first, o, pre + (Key(n) + gap));
      FrontAssoc(pre, Key(n), gap, [], Show(v, post + ","));
      var start := StartIn(first, Width(v) + |post|, o);
      var width := EntriesWidth(es) - |pre| - |Key(n)| - |gap|;
      FindsBehindName(pre, n, gap, shown, name, start, width, tail);
    }
  }

  lemma FindsBehindName(pre: Bytes, n: Bytes, gap: Bytes, shown: Bytes, name: Bytes,
                        start: Option<nat>, width: nat, tail: Bytes)
    requires '\"' !in pre && '\"' !in n && '\"' !in gap && IsName(name) && n != name
    requires Finds(shown, name, start, width, tail)
    ensures Finds(pre + (Key(n) + (gap + shown)), name, Shift(|pre + (Key(n) + gap)|, start),
                  |pre| + |Key(n)| + |gap| + width, tail)
  {
    hide Finds, Key, IsName;
    FindsBehind(gap, shown, name, start, width, tail);
    FindsBehindKey(n, gap + shown, name, Shift(|gap|, start), |gap| + width, tail);
    FindsBehind(pre, Key(n) + (gap + shown), name,
                Shift(|Key(n)|, Shift(|gap|, start)), |Key(n)| + (|gap| + width), tail);
  }

  lemma EndUnfolds(name: Bytes, tail: Bytes)
    ensures ShowItems(NoItems, tail) == tail && ItemsWidth(NoItems) == 0
    ensures ShowEntries(NoEntries, tail) == tail && EntriesWidth(NoEntries) == 0
    ensures StartOf(FirstItem(NoItems, name, tail)) == None == StartOf(FirstEntry(NoEntries, name, tail))
  {
  }

  lemma HitUnfolds(es: Entries, tail: Bytes)
    requires es.Entry?
    ensures ShowEntries(es, tail)
         == es.pre + (Key(es.name) + (es.gap + Show(es.value, es.post + MoreEntries(es.rest, tail))))
    ensures StartOf(FirstEntry(es, es.name, tail)) == Some(|es.pre|)
  {
    hide Show, Key;
  }

  lemma EntryUnfolds(es: Entries, name: Bytes, tail: Bytes)
    requires es.Entry? && es.name != name
    ensures var (pre, n, gap, v, post, rest) := (es.pre, es.name, es.gap, es.value, es.post, es.rest);
      var more := MoreEntries(rest, tail);
      var (first, o) := (First(v, name, post + more), FirstEntry(rest, name, tail));
      && ShowEntries(es, tail) == pre + (Key(n) + (gap + Show(v, post + more)))
      && more == (if rest.NoEntries? then tail else "," + ShowEntries(rest, tail))
      && EntriesWidth(es) == |pre| + |Key(n)| + |gap| + Width(v) + |post|
                             + (if rest.NoEntries? then 0 else 1 + EntriesWidth(rest))
      && FirstEntry(es, name, tail)
         == (if first.Some? then Behind(pre + (Key(n) + gap), first)
             else Behind(pre + (Key(n) + (gap + Show(v, post + ","))), o))
      && (rest.NoEntries? ==> o.None?)
  {
    hide First, Show, Width, Key;
  }

  lemma FindsWritten(pre: Bytes, name: Bytes, text: Bytes, width: nat, tail: Bytes)
    requires '\"' !in pre
    ensures Finds(pre + (Key(name) + text), name, Some(|pre|), width, tail)
  {
    FindSkipsQuoteFree(pre, Key(name) + text, name);
    assert Key(name) <= Key(name) + text;
  }
}
