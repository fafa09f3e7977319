/**
  JSON text (RFC 8259) for frames whose strings hold no quotes and no backslashes and whose
  colons follow their names directly: syntax trees that keep the white space, their printed
  text, and edits of the leftmost member of a given name.

  A value is printed in front of the text that follows it, so no proof has to regroup pieces.
 */
module Json {
  import opened Options
  import opened Search
  import opened Decimal
  import opened FrameText

  datatype Tree =
    | Scalar(text: Bytes)
    | Text(chars: Bytes)
    | Array(pad: Bytes, items: Items)
    | Object(pad: Bytes, entries: Entries)

  datatype Items = NoItems | Item(pre: Bytes, value: Tree, post: Bytes, rest: Items)

  datatype Entries = NoEntries | Entry(pre: Bytes, name: Bytes, gap: Bytes, value: Tree, post: Bytes, rest: Entries)

  // ----- Grammar -----

  predicate IsWhite(c: char) {
    c == ' ' || c == '\t' || c == '\n' || c == '\r'
  }

  ghost predicate White(s: Bytes) {
    forall i | 0 <= i < |s| :: IsWhite(s[i])
  }

  /** The inside of a string, without quotes, backslashes and control characters. */
  ghost predicate PlainString(s: Bytes) {
    forall i | 0 <= i < |s| :: s[i] != '\"' && s[i] != '\\' && s[i] >= ' '
  }

  /** `exp` of section 6 of RFC 8259, or nothing. */
  predicate IsExponent(s: Bytes) {
    s == [] ||
    (|s| >= 2 && (s[0] == 'e' || s[0] == 'E') &&
     var ds := if s[1] == '-' || s[1] == '+' then s[2..] else s[1..];
     ds != [] && DigitRun(ds) == |ds|)
  }

  /** `[ frac ] [ exp ]`. */
  predicate IsFraction(s: Bytes) {
    if s != [] && s[0] == '.' then
      var n := DigitRun(s[1..]);
      n >= 1 && IsExponent(s[1..][n..])
    else IsExponent(s)
  }

  /** `number`: a zero does not lead other digits. */
  predicate IsNumber(s: Bytes) {
    var u := if s != [] && s[0] == '-' then s[1..] else s;
    var n := DigitRun(u);
    n >= 1 && (u[0] == '0' ==> n == 1) && IsFraction(u[n..])
  }

  predicate IsScalar(s: Bytes) {
    IsNumber(s) || s == "true" || s == "false" || s == "null"
  }

  ghost predicate WellFormed(v: Tree) {
    match v
    case Scalar(t) => IsScalar(t)
    case Text(s) => PlainString(s)
    case Array(pad, items) => White(pad) && WellFormedItems(items)
    case Object(pad, entries) => White(pad) && WellFormedEntries(entries)
  }

  ghost predicate WellFormedItems(xs: Items) {
    match xs
    case NoItems => true
    case Item(pre, v, post, rest) => White(pre) && WellFormed(v) && White(post) && WellFormedItems(rest)
  }

  ghost predicate WellFormedEntries(es: Entries) {
    match es
    case NoEntries => true
    case Entry(pre, name, gap, v, post, rest) =>
      White(pre) && PlainString(name) && White(gap) && WellFormed(v) && White(post) && WellFormedEntries(rest)
  }

  // ----- Text -----

  /** The text of `v`, then `tail`. */
  function Show(v: Tree, tail: Bytes): Bytes
    decreases v, 0
  {
    match v
    case Scalar(t) => t + tail
    case Text(s) => "\"" + (s + ("\"" + tail))
    case Array(pad, items) => "[" + (pad + ShowItems(items, "]" + tail))
    case Object(pad, entries) => "{" + (pad + ShowEntries(entries, "}" + tail))
  }

  function ShowItems(xs: Items, tail: Bytes): Bytes
    decreases xs, 0
  {
    match xs
    case NoItems => tail
    case Item(pre, v, post, rest) => pre + Show(v, post + MoreItems(rest, tail))
  }

  function MoreItems(xs: Items, tail: Bytes): Bytes
    decreases xs, 1
  {
    if xs.NoItems? then tail else "," + ShowItems(xs, tail)
  }

  function ShowEntries(es: Entries, tail: Bytes): Bytes
    decreases es, 0
  {
    match es
    case NoEntries => tail
    case Entry(pre, name, gap, v, post, rest) =>
      pre + (Key(name) + (gap + Show(v, post + MoreEntries(rest, tail))))
  }

  function MoreEntries(es: Entries, tail: Bytes): Bytes
    decreases es, 1
  {
    if es.NoEntries? then tail else "," + ShowEntries(es, tail)
  }

  // Printing commutes with what follows.

  lemma {:induction false} ShowTail(v: Tree, t: Bytes, x: Bytes)
    ensures Show(v, t + x) == Show(v, t) + x
    decreases v
  {
    match v
    case Scalar(s) => Assoc(s, t, x);
    case Text(s) =>
      Assoc("\"", t, x);
      Assoc(s, "\"" + t, x);
      Assoc("\"", s + ("\"" + t), x);
    case Array(pad, items) =>
      Assoc("]", t, x);
      ShowItemsTail(items, "]" + t, x);
      Assoc(pad, ShowItems(items, "]" + t), x);
      Assoc("[", pad + ShowItems(items, "]" + t), x);
    case Object(pad, entries) =>
      Assoc("}", t, x);
      ShowEntriesTail(entries, "}" + t, x);
      Assoc(pad, ShowEntries(entries, "}" + t), x);
      Assoc("{", pad + ShowEntries(entries, "}" + t), x);
  }

  lemma {:induction false} ShowItemsTail(xs: Items, t: Bytes, x: Bytes)
    ensures ShowItems(xs, t + x) == ShowItems(xs, t) + x
    ensures MoreItems(xs, t + x) == MoreItems(xs, t) + x
    decreases xs
  {
    if xs.Item? {
      if xs.rest.Item? { ShowItemsTail(xs.rest, t, x); }
      var more := MoreItems(xs.rest, t);
      Assoc(xs.post, more, x);
      ShowTail(xs.value, xs.post + more, x);
      Assoc(xs.pre, Show(xs.value, xs.post + more), x);
      Assoc(",", ShowItems(xs, t), x);
    }
  }

  lemma {:induction false} ShowEntriesTail(es: Entries, t: Bytes, x: Bytes)
    ensures ShowEntries(es, t + x) == ShowEntries(es, t) + x
    ensures MoreEntries(es, t + x) == MoreEntries(es, t) + x
    decreases es
  {
    if es.Entry? {
      if es.rest.Entry? { ShowEntriesTail(es.rest, t, x); }
      var more := MoreEntries(es.rest, t);
      Assoc(es.post, more, x);
      ShowTail(es.value, es.post + more, x);
      EntryAssoc(es.pre, Key(es.name), es.gap, Show(es.value, es.post + more), x);
      Assoc(",", ShowEntries(es, t), x);
    }
  }

  lemma EntryAssoc(a: Bytes, b: Bytes, c: Bytes, d: Bytes, x: Bytes)
    ensures (a + (b + (c + d))) + x == a + (b + (c + (d + x)))
  {
  }

  // ----- The leftmost member of a name -----

  /** A member in its context: the text before its name, the blanks and the value after its
      colon, and the text after its value. */
  datatype Hit = Hit(before: Bytes, gap: Bytes, value: Tree, after: Bytes)

  function Behind(front: Bytes, h: Option<Hit>): Option<Hit> {
    match h
    case Some(h) => Some(h.(before := front + h.before))
    case None => None
  }

  function First(v: Tree, name: Bytes, tail: Bytes): Option<Hit>
    decreases v
  {
    match v
    case Scalar(_) => None
    case Text(_) => None
    case Array(pad, items) => Behind("[" + pad, FirstItem(items, name, "]" + tail))
    case Object(pad, entries) => Behind("{" + pad, FirstEntry(entries, name, "}" + tail))
  }

  function FirstItem(xs: Items, name: Bytes, tail: Bytes): Option<Hit>
    decreases xs
  {
    match xs
    case NoItems => None
    case Item(pre, v, post, rest) =>
      match First(v, name, post + MoreItems(rest, tail))
      case Some(h) => Behind(pre, Some(h))
      case None => Behind(pre + Show(v, post + ","), FirstItem(rest, name, tail))
  }

  function FirstEntry(es: Entries, name: Bytes, tail: Bytes): Option<Hit>
    decreases es
  {
    match es
    case NoEntries => None
    case Entry(pre, n, gap, v, post, rest) =>
      var more := post + MoreEntries(rest, tail);
      if n == name then Some(Hit(pre, gap, v, more))
      else
        match First(v, name, more)
        case Some(h) => Behind(pre + (Key(n) + gap), Some(h))
        case None => Behind(pre + (Key(n) + (gap + Show(v, post + ","))), FirstEntry(rest, name, tail))
  }

  // ----- Edits -----

  /** What an edit does to a member: give it a new number, or rename it and add members after it. */
  datatype Edit = SetNumber(text: Bytes) | Rename(name: Bytes, added: seq<Added>)

  /** The added members, the last of them followed by what followed the edited one. */
  function AddedEntries(ms: seq<Added>, post: Bytes, rest: Entries): Entries {
    if ms == [] then rest
    else if |ms| == 1 then Entry([], ms[0].name, [], Scalar(ms[0].text), post, rest)
    else Entry([], ms[0].name, [], Scalar(ms[0].text), [], AddedEntries(ms[1..], post, rest))
  }

  function Apply(e: Edit, es: Entries): Entries
    requires es.Entry?
  {
    match e
    case SetNumber(t) => es.(value := Scalar(t))
    case Rename(renamed, ms) =>
      if ms == [] then es.(name := renamed, gap := [])
      else Entry(es.pre, renamed, [], es.value, [], AddedEntries(ms, es.post, es.rest))
  }

  predicate Has(v: Tree, name: Bytes)
    decreases v
  {
    match v
    case Scalar(_) => false
    case Text(_) => false
    case Array(_, items) => HasItem(items, name)
    case Object(_, entries) => HasEntry(entries, name)
  }

  predicate HasItem(xs: Items, name: Bytes)
    decreases xs
  {
    xs.Item? && (Has(xs.value, name) || HasItem(xs.rest, name))
  }

  predicate HasEntry(es: Entries, name: Bytes)
    decreases es
  {
    es.Entry? && (es.name == name || Has(es.value, name) || HasEntry(es.rest, name))
  }

  /** The tree with its leftmost member of that name edited. */
  function EditFirst(v: Tree, name: Bytes, e: Edit): Tree
    decreases v
  {
    match v
    case Scalar(_) => v
    case Text(_) => v
    case Array(pad, items) => Array(pad, EditItem(items, name, e))
    case Object(pad, entries) => Object(pad, EditEntry(entries, name, e))
  }

  function EditItem(xs: Items, name: Bytes, e: Edit): Items
    decreases xs
  {
    match xs
    case NoItems => xs
    case Item(pre, v, post, rest) =>
      if Has(v, name) then xs.(value := EditFirst(v, name, e))
      else xs.(rest := EditItem(rest, name, e))
  }

  function EditEntry(es: Entries, name: Bytes, e: Edit): Entries
    decreases es
  {
    match es
    case NoEntries => es
    case Entry(pre, n, gap, v, post, rest) =>
      if n == name then Apply(e, es)
      else if Has(v, name) then es.(value := EditFirst(v, name, e))
      else es.(rest := EditEntry(rest, name, e))
  }

  /** The text of an edited hit. */
  function EditText(e: Edit, name: Bytes, h: Hit): Bytes {
    match e
    case SetNumber(t) => h.before + (Key(name) + (h.gap + (t + h.after)))
    case Rename(renamed, ms) => h.before + (Key(renamed) + Show(h.value, Members(ms) + h.after))
  }
}
