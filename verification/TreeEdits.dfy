/** Edits of a JSON tree: they touch one member, keep the tree well formed, and are seen by no
    lookup of another scalar member. */
module TreeEdits {
  import opened Options
  import opened Search
  import opened FrameText
  import opened FrameLaws
  import opened Json
  import opened JsonLaws

  // ----- Lookup -----

  /** The blanks and the value of a member. */
  datatype Found = Found(gap: Bytes, value: Tree)

  /** The leftmost member of a name, in the order of the text. */
  function Lookup(v: Tree, name: Bytes): Option<Found>
    decreases v
  {
    match v
    case Scalar(_) => None
    case Text(_) => None
    case Array(_, items) => LookupItem(items, name)
    case Object(_, entries) => LookupEntry(entries, name)
  }

  function LookupItem(xs: Items, name: Bytes): Option<Found>
    decreases xs
  {
    match xs
    case NoItems => None
    case Item(_, v, _, rest) =>
      var here := Lookup(v, name);
      if here.Some? then here else LookupItem(rest, name)
  }

  function LookupEntry(es: Entries, name: Bytes): Option<Found>
    decreases es
  {
    match es
    case NoEntries => None
    case Entry(_, n, gap, v, _, rest) =>
      if n == name then Some(Found(gap, v))
      else
        var here := Lookup(v, name);
        if here.Some? then here else LookupEntry(rest, name)
  }

  function FoundBy(o: Option<Hit>): Option<Found> {
    match o
    case Some(h) => Some(Found(h.gap, h.value))
    case None => None
  }

  /** A hit is the lookup with its context, and a delimiter follows its value. */
  lemma {:induction false} FirstIsLookup(v: Tree, name: Bytes, tail: Bytes)
    requires WellFormed(v) && Delimits(tail)
    ensures FoundBy(First(v, name, tail)) == Lookup(v, name)
    ensures First(v, name, tail).Some? ==> Delimits(First(v, name, tail).value.after)
    decreases v
  {
    match v
    case Scalar(_) =>
    case Text(_) =>
    case Array(_, items) => FirstItemIsLookup(items, name, "]" + tail);
    case Object(_, entries) => FirstEntryIsLookup(entries, name, "}" + tail);
  }

  lemma {:induction false} FirstItemIsLookup(xs: Items, name: Bytes, tail: Bytes)
    requires WellFormedItems(xs) && Delimits(tail)
    ensures FoundBy(FirstItem(xs, name, tail)) == LookupItem(xs, name)
    ensures FirstItem(xs, name, tail).Some? ==> Delimits(FirstItem(xs, name, tail).value.after)
    decreases xs
  {
    if xs.Item? {
      ItemParts(xs, tail);
      FirstIsLookup(xs.value, name, xs.post + MoreItems(xs.rest, tail));
      FirstItemIsLookup(xs.rest, name, tail);
      hide First, Lookup, Show, Delimits, WellFormed, WellFormedItems, Has;
    }
  }

  lemma {:induction false} FirstEntryIsLookup(es: Entries, name: Bytes, tail: Bytes)
    requires WellFormedEntries(es) && Delimits(tail)
    ensures FoundBy(FirstEntry(es, name, tail)) == LookupEntry(es, name)
    ensures FirstEntry(es, name, tail).Some? ==> Delimits(FirstEntry(es, name, tail).value.after)
    decreases es
  {
    if es.Entry? {
      EntryParts(es, tail);
      FirstIsLookup(es.value, name, es.post + MoreEntries(es.rest, tail));
      FirstEntryIsLookup(es.rest, name, tail);
      hide First, Lookup, Show, Delimits, WellFormed, WellFormedEntries, Has;
    }
  }

  /** What a lookup finds in a well-formed tree is well formed. */
  lemma {:induction false} FoundIsWellFormed(v: Tree, name: Bytes)
    requires WellFormed(v) && Lookup(v, name).Some?
    ensures White(Lookup(v, name).value.gap) && WellFormed(Lookup(v, name).value.value)
    decreases v
  {
    match v
    case Scalar(_) =>
    case Text(_) =>
    case Array(_, items) => FoundItemIsWellFormed(items, name);
    case Object(_, entries) => FoundEntryIsWellFormed(entries, name);
  }

  lemma {:induction false} FoundItemIsWellFormed(xs: Items, name: Bytes)
    requires WellFormedItems(xs) && LookupItem(xs, name).Some?
    ensures White(LookupItem(xs, name).value.gap) && WellFormed(LookupItem(xs, name).value.value)
    decreases xs
  {
    if Lookup(xs.value, name).Some? {
      FoundIsWellFormed(xs.value, name);
    } else {
      FoundItemIsWellFormed(xs.rest, name);
    }
  }

  lemma {:induction false} FoundEntryIsWellFormed(es: Entries, name: Bytes)
    requires WellFormedEntries(es) && LookupEntry(es, name).Some?
    ensures White(LookupEntry(es, name).value.gap) && WellFormed(LookupEntry(es, name).value.value)
    decreases es
  {
    if es.name != name {
      if Lookup(es.value, name).Some? {
        FoundIsWellFormed(es.value, name);
      } else {
        FoundEntryIsWellFormed(es.rest, name);
      }
    }
  }

  /** Editing a member that is not there changes nothing. */
  lemma {:induction false} EditEntryAbsent(es: Entries, name: Bytes, e: Edit)
    requires LookupEntry(es, name).None?
    ensures EditEntry(es, name, e) == es
    decreases es
  {
    if es.Entry? {
      HasIsLookup(es.value, name);
      EditEntryAbsent(es.rest, name, e);
    }
  }

  // ----- An edit is seen by no lookup of another scalar member -----

  ghost predicate Spares(e: Edit, name: Bytes) {
    e.Rename? ==> e.name != name && !Names(e.added, name)
  }

  ghost predicate IsScalarMember(o: Option<Found>) {
    o.Some? ==> o.value.value.Scalar?
  }

  lemma {:induction false} LookupBehindAdded(ms: seq<Added>, post: Bytes, rest: Entries, name: Bytes)
    requires !Names(ms, name)
    ensures LookupEntry(AddedEntries(ms, post, rest), name) == LookupEntry(rest, name)
  {
    if ms != [] {
      assert ms[0].name != name;
      if |ms| > 1 {
        assert forall i | 0 <= i < |ms| - 1 :: ms[1..][i] == ms[i + 1];
        LookupBehindAdded(ms[1..], post, rest, name);
      }
    }
  }

  lemma ApplySpares(es: Entries, e: Edit, name: Bytes)
    requires es.Entry? && es.value.Scalar? && es.name != name && Spares(e, name)
    ensures LookupEntry(Apply(e, es), name) == LookupEntry(es, name)
  {
    if e.Rename? {
      LookupBehindAdded(e.added, es.post, es.rest, name);
    }
  }

  lemma {:induction false} EditSpares(v: Tree, k: Bytes, e: Edit, name: Bytes)
    requires k != name && Spares(e, name) && IsScalarMember(Lookup(v, k)) && IsScalarMember(Lookup(v, name))
    ensures Lookup(EditFirst(v, k, e), name) == Lookup(v, name)
    decreases v
  {
    match v
    case Scalar(_) =>
    case Text(_) =>
    case Array(_, items) => EditItemSpares(items, k, e, name);
    case Object(_, entries) => EditEntrySpares(entries, k, e, name);
  }

  lemma {:induction false} HasIsLookup(v: Tree, name: Bytes)
    ensures Has(v, name) <==> Lookup(v, name).Some?
    decreases v
  {
    match v
    case Scalar(_) =>
    case Text(_) =>
    case Array(_, items) => HasItemIsLookup(items, name);
    case Object(_, entries) => HasEntryIsLookup(entries, name);
  }

  lemma {:induction false} HasItemIsLookup(xs: Items, name: Bytes)
    ensures HasItem(xs, name) <==> LookupItem(xs, name).Some?
    decreases xs
  {
    if xs.Item? {
      HasIsLookup(xs.value, name);
      HasItemIsLookup(xs.rest, name);
    }
  }

  lemma {:induction false} HasEntryIsLookup(es: Entries, name: Bytes)
    ensures HasEntry(es, name) <==> LookupEntry(es, name).Some?
    decreases es
  {
    if es.Entry? {
      HasIsLookup(es.value, name);
      HasEntryIsLookup(es.rest, name);
    }
  }

  lemma {:induction false} EditItemSpares(xs: Items, k: Bytes, e: Edit, name: Bytes)
    requires k != name && Spares(e, name) && IsScalarMember(LookupItem(xs, k)) && IsScalarMember(LookupItem(xs, name))
    ensures LookupItem(EditItem(xs, k, e), name) == LookupItem(xs, name)
    decreases xs
  {
    if xs.Item? {
      HasIsLookup(xs.value, k);
      if Has(xs.value, k) {
        EditSpares(xs.value, k, e, name);
      } else if Lookup(xs.value, name).None? {
        EditItemSpares(xs.rest, k, e, name);
      }
    }
  }

  lemma {:induction false} EditEntrySpares(es: Entries, k: Bytes, e: Edit, name: Bytes)
    requires k != name && Spares(e, name) && IsScalarMember(LookupEntry(es, k)) && IsScalarMember(LookupEntry(es, name))
    ensures LookupEntry(EditEntry(es, k, e), name) == LookupEntry(es, name)
    decreases es
  {
    if es.Entry? {
      HasIsLookup(es.value, k);
      if es.name == k {
        ApplySpares(es, e, name);
      } else if Has(es.value, k) {
        EditSpares(es.value, k, e, name);
      } else if es.name != name && Lookup(es.value, name).None? {
        EditEntrySpares(es.rest, k, e, name);
      }
    }
  }

  // ----- Edits keep a tree well formed -----

  ghost predicate AddedOk(ms: seq<Added>) {
    forall i | 0 <= i < |ms| :: PlainString(ms[i].name) && IsNumber(ms[i].text)
  }

  ghost predicate EditOk(e: Edit) {
    match e
    case SetNumber(t) => IsNumber(t)
    case Rename(renamed, ms) => PlainString(renamed) && AddedOk(ms)
  }

  lemma {:induction false} AddedIsWellFormed(ms: seq<Added>, post: Bytes, rest: Entries)
    requires AddedOk(ms) && White(post) && WellFormedEntries(rest)
    ensures WellFormedEntries(AddedEntries(ms, post, rest))
  {
    if |ms| > 1 {
      hide PlainString, IsNumber;
      assert forall i | 0 <= i < |ms| - 1 :: ms[1..][i] == ms[i + 1];
      AddedIsWellFormed(ms[1..], post, rest);
    }
  }

  lemma ApplyIsWellFormed(es: Entries, e: Edit)
    requires es.Entry? && WellFormedEntries(es) && EditOk(e)
    ensures WellFormedEntries(Apply(e, es))
  {
    hide IsNumber, PlainString;
    if e.Rename? && e.added != [] {
      AddedIsWellFormed(e.added, es.post, es.rest);
    }
  }

  lemma {:induction false} EditIsWellFormed(v: Tree, k: Bytes, e: Edit)
    requires WellFormed(v) && EditOk(e)
    ensures WellFormed(EditFirst(v, k, e))
    decreases v
  {
    match v
    case Scalar(_) =>
    case Text(_) =>
    case Array(_, items) => EditItemIsWellFormed(items, k, e);
    case Object(_, entries) => EditEntryIsWellFormed(entries, k, e);
  }

  lemma {:induction false} EditItemIsWellFormed(xs: Items, k: Bytes, e: Edit)
    requires WellFormedItems(xs) && EditOk(e)
    ensures WellFormedItems(EditItem(xs, k, e))
    decreases xs
  {
    if xs.Item? {
      EditIsWellFormed(xs.value, k, e);
      EditItemIsWellFormed(xs.rest, k, e);
    }
  }

  lemma {:induction false} EditEntryIsWellFormed(es: Entries, k: Bytes, e: Edit)
    requires WellFormedEntries(es) && EditOk(e)
    ensures WellFormedEntries(EditEntry(es, k, e))
    decreases es
  {
    if es.Entry? {
      ApplyIsWellFormed(es, e);
      EditIsWellFormed(es.value, k, e);
      EditEntryIsWellFormed(es.rest, k, e);
      hide Apply, EditFirst, White, PlainString, WellFormed;
    }
  }

  // ----- Appending at the end of the members -----

  function AppendEntries(es: Entries, ms: seq<Added>): Entries
    decreases es
  {
    match es
    case NoEntries => AddedEntries(ms, [], NoEntries)
    case Entry(_, _, _, _, _, rest) => es.(rest := AppendEntries(rest, ms))
  }

  lemma {:induction false} AppendShows(es: Entries, ms: seq<Added>, tail: Bytes)
    requires es.Entry? && ms != []
    ensures ShowEntries(AppendEntries(es, ms), tail) == ShowEntries(es, Members(ms) + tail)
    decreases es
  {
    if es.rest.NoEntries? {
      AddedShows(ms, [], NoEntries, tail);
      assert [] + tail == tail;
      hide Show, Members, Key;
    } else {
      AppendShows(es.rest, ms, tail);
      hide Show, Members, Key;
    }
  }

  lemma {:induction false} AppendSpares(es: Entries, ms: seq<Added>, name: Bytes)
    requires !Names(ms, name)
    ensures LookupEntry(AppendEntries(es, ms), name) == LookupEntry(es, name)
    decreases es
  {
    if es.NoEntries? {
      LookupBehindAdded(ms, [], NoEntries, name);
    } else {
      AppendSpares(es.rest, ms, name);
    }
  }

  lemma {:induction false} AppendIsWellFormed(es: Entries, ms: seq<Added>)
    requires WellFormedEntries(es) && AddedOk(ms)
    ensures WellFormedEntries(AppendEntries(es, ms))
    decreases es
  {
    if es.NoEntries? {
      AddedIsWellFormed(ms, [], NoEntries);
    } else {
      AppendIsWellFormed(es.rest, ms);
    }
  }
}
