/** Sequences that list the elements of a set in the order of their names. */
module Listings {
  import opened Text

  /** Strictly increasing names, so no element twice. */
  predicate Increasing<T>(s: seq<T>, name: T -> string) {
    forall i, j :: 0 <= i < j < |s| ==> Less(name(s[i]), name(s[j]))
  }

  function Elements<T(==)>(s: seq<T>): set<T> {
    set x | x in s
  }

  /** `s` lists `all` in the order of names. */
  predicate Lists<T(==)>(s: seq<T>, all: set<T>, name: T -> string) {
    Increasing(s, name) && Elements(s) == all
  }

  /** There is only one such listing. */
  lemma {:induction false} ListingIsUnique<T>(s: seq<T>, t: seq<T>, all: set<T>, name: T -> string)
    requires Lists(s, all, name) && Lists(t, all, name)
    ensures s == t
    decreases |s|
  {
    assert (s != [] ==> s[0] in Elements(s)) && (t != [] ==> t[0] in Elements(t));
    if s != [] && t != [] {
      assert s[0] in Elements(t) && t[0] in Elements(s);
      var i :| 0 <= i < |t| && t[i] == s[0];
      var j :| 0 <= j < |s| && s[j] == t[0];
      LessIsTotal(name(s[0]), name(t[0]));
      assert s[0] == t[0];
      RestLists(s, all, name);
      RestLists(t, all, name);
      ListingIsUnique(s[1..], t[1..], all - {s[0]}, name);
      assert s == [s[0]] + s[1..] && t == [t[0]] + t[1..];
    }
  }

  lemma RestLists<T>(s: seq<T>, all: set<T>, name: T -> string)
    requires Lists(s, all, name) && s != []
    ensures Lists(s[1..], all - {s[0]}, name)
  {
    LessIsTotal(name(s[0]), name(s[0]));
    forall x ensures x in Elements(s[1..]) <==> x in all - {s[0]} {
      if x in s[1..] {
        var k :| 0 <= k < |s[1..]| && s[1..][k] == x;
        assert s[k + 1] == x && Less(name(s[0]), name(s[k + 1]));
      }
      if x in all && x != s[0] {
        assert x in Elements(s);
        var k :| 0 <= k < |s| && s[k] == x;
        assert s[1..][k - 1] == x;
      }
    }
  }

  /** What a sort by name makes of a list without repeated names. */
  function Insert<T>(x: T, s: seq<T>, name: T -> string): seq<T> {
    if s == [] || !Less(name(s[0]), name(x)) then [x] + s else [s[0]] + Insert(x, s[1..], name)
  }

  function Sorted<T>(s: seq<T>, name: T -> string): seq<T> {
    if s == [] then [] else Insert(s[0], Sorted(s[1..], name), name)
  }

  predicate DistinctNames<T>(s: seq<T>, name: T -> string) {
    forall i, j :: 0 <= i < j < |s| ==> name(s[i]) != name(s[j])
  }

  lemma HeadComesFirst<T>(s: seq<T>, rest: seq<T>, x: T, name: T -> string)
    requires s != [] && Increasing(s, name) && Less(name(s[0]), name(x))
    requires Lists(rest, Elements(s[1..]) + {x}, name)
    ensures forall k :: 0 <= k < |rest| ==> Less(name(s[0]), name(rest[k]))
  {
    forall k | 0 <= k < |rest| ensures Less(name(s[0]), name(rest[k])) {
      assert rest[k] in Elements(rest);
      if rest[k] != x {
        assert rest[k] in s[1..];
        var m :| 0 <= m < |s[1..]| && s[1..][m] == rest[k];
        assert s[m + 1] == rest[k];
      }
    }
  }

  lemma {:induction false} InsertLists<T>(x: T, s: seq<T>, name: T -> string)
    requires Increasing(s, name) && forall y :: y in s ==> name(y) != name(x)
    ensures Lists(Insert(x, s, name), Elements(s) + {x}, name)
    decreases |s|
  {
    if s == [] {
      assert Elements([x]) == {x};
    } else {
      LessIsTotal(name(s[0]), name(x));
      if Less(name(s[0]), name(x)) {
        var rest := Insert(x, s[1..], name);
        assert forall y :: y in s[1..] ==> y in s;
        assert Increasing(s[1..], name);
        InsertLists(x, s[1..], name);
        assert Elements(s) == {s[0]} + Elements(s[1..]) by { assert s == [s[0]] + s[1..]; }
        HeadComesFirst(s, rest, x, name);
        PrependLists(s[0], rest, Elements(s[1..]) + {x}, name);
      } else {
        forall k | 0 <= k < |s| ensures Less(name(x), name(s[k])) {
          if k > 0 { LessIsTransitive(name(x), name(s[0]), name(s[k])); }
        }
        PrependLists(x, s, Elements(s), name);
      }
    }
  }

  lemma PrependLists<T>(x: T, s: seq<T>, all: set<T>, name: T -> string)
    requires Lists(s, all, name) && forall k :: 0 <= k < |s| ==> Less(name(x), name(s[k]))
    ensures Lists([x] + s, all + {x}, name)
  {
    var t := [x] + s;
    forall i, j | 0 <= i < j < |t| ensures Less(name(t[i]), name(t[j])) {
      assert t[j] == s[j - 1];
      if i > 0 { assert t[i] == s[i - 1]; }
    }
    forall y ensures y in Elements(t) <==> y in all + {x} {
      assert y in all <==> y in s;
    }
  }

  /** Sorting a list without repeated names lists its elements. */
  lemma {:induction false} SortedLists<T>(s: seq<T>, name: T -> string)
    requires DistinctNames(s, name)
    ensures Lists(Sorted(s, name), Elements(s), name)
    decreases |s|
  {
    if s != [] {
      assert DistinctNames(s[1..], name);
      SortedLists(s[1..], name);
      forall y | y in Sorted(s[1..], name) ensures name(y) != name(s[0]) {
        assert y in Elements(Sorted(s[1..], name));
        assert y in s[1..];
        var k :| 0 <= k < |s[1..]| && s[1..][k] == y;
        assert s[k + 1] == y;
      }
      InsertLists(s[0], Sorted(s[1..], name), name);
      assert Elements(s) == Elements(s[1..]) + {s[0]} by { assert s == [s[0]] + s[1..]; }
    }
  }
}

/** Order-independent merging of metadata edits per carrier key. */
module ChangeNormalizer {
  import opened Wrappers
  import opened Text
  import opened Listings

  datatype Backend =
    | NativeFlacVorbis | NativeDsfId3 | NativeWavPackApe
    | LoftyVorbisComments | LoftyId3v2 | LoftyApe | LoftyMp4Ilst
    | ReadOnlyApeFamily | UnsupportedDff | UnclassifiedLofty

  datatype NumberingField = TrackNumber | TrackTotal | DiscNumber | DiscTotal

  /** Item keys: the numbering fields, any other typed key by its debug name, and free text. */
  datatype AnyKey = Numbering(field: NumberingField) | Typed(variant: string) | Unknown(name: string)

  type ItemKey = k: AnyKey | k.Typed? ==> IsVariantName(k.variant) witness Unknown("")

  predicate IsVariantName(s: string) {
    && (forall c :: c in s ==> 'a' <= c <= 'z' || 'A' <= c <= 'Z' || '0' <= c <= '9')
    && s !in {"TrackNumber", "TrackTotal", "DiscNumber", "DiscTotal"}
  }

  predicate IsTypedBackend(b: Backend) {
    b.LoftyId3v2? || b.NativeWavPackApe? || b.LoftyApe? || b.LoftyMp4Ilst?
  }

  // ---- Numbering fields and their aliases. ----

  function LogicalAliases(field: NumberingField): seq<string> {
    match field
    case TrackNumber => ["TRACKNUMBER"]
    case TrackTotal => ["TRACKTOTAL", "TOTALTRACKS"]
    case DiscNumber => ["DISCNUMBER", "DISKNUMBER"]
    case DiscTotal => ["DISCTOTAL", "DISKTOTAL", "TOTALDISCS"]
  }

  function BackendAliases(b: Backend, field: NumberingField): seq<string> {
    if b.LoftyId3v2? && field.TrackNumber? then ["TRCK"]
    else if b.LoftyId3v2? && field.DiscNumber? then ["TPOS"]
    else if (b.NativeWavPackApe? || b.LoftyApe?) && field.TrackNumber? then ["TRACK"]
    else if (b.NativeWavPackApe? || b.LoftyApe?) && field.DiscNumber? then ["DISC"]
    else if b.LoftyMp4Ilst? && field.TrackNumber? then ["TRKN"]
    else if b.LoftyMp4Ilst? && field.DiscNumber? then ["DISK"]
    else []
  }

  /** The field that an upper-case name spells in every backend. */
  function FromLogicalName(n: string): Option<NumberingField> {
    if n in LogicalAliases(TrackNumber) then Some(TrackNumber)
    else if n in LogicalAliases(TrackTotal) then Some(TrackTotal)
    else if n in LogicalAliases(DiscNumber) then Some(DiscNumber)
    else if n in LogicalAliases(DiscTotal) then Some(DiscTotal)
    else None
  }

  /** The field that an upper-case name spells in one backend only. */
  function FromBackendName(b: Backend, n: string): Option<NumberingField> {
    if b.NativeDsfId3? || b.LoftyId3v2? then
      if n == "TRCK" then Some(TrackNumber) else if n == "TPOS" then Some(DiscNumber) else None
    else if b.NativeWavPackApe? || b.LoftyApe? then
      if n == "TRACK" then Some(TrackNumber) else if n == "DISC" then Some(DiscNumber) else None
    else if b.LoftyMp4Ilst? then
      if n == "TRKN" then Some(TrackNumber) else if n == "DISK" then Some(DiscNumber) else None
    else None
  }

  function Spelled(b: Backend, n: string): Option<NumberingField> {
    if FromLogicalName(n).Some? then FromLogicalName(n) else FromBackendName(b, n)
  }

  /** The names of the numbering fields, field by field. */
  lemma SpellingsOfTheFields(b: Backend, n: string)
    ensures var id3, ape := b.NativeDsfId3? || b.LoftyId3v2?, b.NativeWavPackApe? || b.LoftyApe?;
            && (Spelled(b, n) == Some(TrackNumber) <==>
                  || n == "TRACKNUMBER" || (id3 && n == "TRCK") || (ape && n == "TRACK")
                  || (b.LoftyMp4Ilst? && n == "TRKN"))
            && (Spelled(b, n) == Some(DiscNumber) <==>
                  || n in ["DISCNUMBER", "DISKNUMBER"] || (id3 && n == "TPOS") || (ape && n == "DISC")
                  || (b.LoftyMp4Ilst? && n == "DISK"))
            && (Spelled(b, n) == Some(TrackTotal) <==> n in ["TRACKTOTAL", "TOTALTRACKS"])
            && (Spelled(b, n) == Some(DiscTotal) <==> n in ["DISCTOTAL", "DISKTOTAL", "TOTALDISCS"])
  {}

  /** The numbering field that a key means to a backend; blank names mean none. */
  function FieldOf(b: Backend, key: ItemKey): Option<NumberingField> {
    match key
    case Numbering(field) => Some(field)
    case Typed(_) => None
    case Unknown(text) =>
      if Trim(text) == "" then None else Spelled(b, AsciiUpper(Trim(text)))
  }

  /** The key under which a typed backend carries a change. */
  function Carrier(b: Backend, key: ItemKey): ItemKey {
    if IsTypedBackend(b) && FieldOf(b, key).Some? then Numbering(FieldOf(b, key).value) else key
  }

  function Aliases(b: Backend, field: NumberingField): set<ItemKey> {
    (set a | a in LogicalAliases(field) :: Unknown(a)) + (set a | a in BackendAliases(b, field) :: Unknown(a))
  }

  /** Every spelling that a change has to remove. */
  function RemovalKeys(b: Backend, key: ItemKey): set<ItemKey> {
    {key, Carrier(b, key)} + if FieldOf(b, key).Some? then Aliases(b, FieldOf(b, key).value) else {}
  }

  /** Among the aliases of a field are all of its names in capitals, and no others. */
  lemma EverySpellingIsRemoved(b: Backend, field: NumberingField, n: string)
    requires IsTypedBackend(b)
    ensures Unknown(n) in Aliases(b, field) <==> Spelled(b, n) == Some(field)
  {
    hide Spelled;
    if n in LogicalAliases(field) || n in BackendAliases(b, field) {
      AliasesSpellTheirField(b, field, n);
    }
    if Spelled(b, n) == Some(field) {
      SpellingsAreAliases(b, field, n);
    }
    assert Unknown(n) in Aliases(b, field) <==> n in LogicalAliases(field) || n in BackendAliases(b, field);
  }

  lemma SpellingsAreAliases(b: Backend, field: NumberingField, n: string)
    requires IsTypedBackend(b) && Spelled(b, n) == Some(field)
    ensures n in LogicalAliases(field) || n in BackendAliases(b, field)
  {}

  /** Deleting every spelling of one carrier never touches another carrier. */
  lemma RemovalsStayWithTheirCarrier(b: Backend, key: ItemKey, k: ItemKey)
    requires IsTypedBackend(b) && k in RemovalKeys(b, key)
    ensures Carrier(b, k) == Carrier(b, key)
  {
    if FieldOf(b, key).Some? && k in Aliases(b, FieldOf(b, key).value) {
      AliasesMeanTheirField(b, FieldOf(b, key).value, k.name);
    }
  }

  predicate Capitals(s: string) {
    forall k :: 0 <= k < |s| ==> 'A' <= s[k] <= 'Z'
  }

  lemma {:induction false} CapitalsStayUpper(s: string)
    requires Capitals(s)
    ensures AsciiUpper(s) == s
  {
    if s != [] {
      CapitalsStayUpper(s[1..]);
      assert s == [s[0]] + s[1..];
    }
  }

  lemma AliasesAreCapitals(b: Backend, field: NumberingField, a: string)
    requires a in LogicalAliases(field) || a in BackendAliases(b, field)
    ensures Capitals(a) && a != ""
  {
    if a in LogicalAliases(field) {
      LogicalAliasesAreCapitals(field, a);
    } else {
      BackendAliasesAreCapitals(b, field, a);
    }
  }

  lemma LogicalAliasesAreCapitals(field: NumberingField, a: string)
    requires a in LogicalAliases(field)
    ensures Capitals(a) && a != ""
  {}

  lemma BackendAliasesAreCapitals(b: Backend, field: NumberingField, a: string)
    requires a in BackendAliases(b, field)
    ensures Capitals(a) && a != ""
  {}

  lemma AliasesSpellTheirField(b: Backend, field: NumberingField, a: string)
    requires IsTypedBackend(b)
    requires a in LogicalAliases(field) || a in BackendAliases(b, field)
    ensures Spelled(b, a) == Some(field)
  {}

  lemma AliasesMeanTheirField(b: Backend, field: NumberingField, a: string)
    requires IsTypedBackend(b) && (a in LogicalAliases(field) || a in BackendAliases(b, field))
    ensures FieldOf(b, Unknown(a)) == Some(field)
  {
    AliasesAreCapitals(b, field, a);
    AliasesSpellTheirField(b, field, a);
    CapitalsMean(b, a);
  }

  lemma CapitalsMean(b: Backend, a: string)
    requires Capitals(a) && a != ""
    ensures FieldOf(b, Unknown(a)) == Spelled(b, a)
  {
    CapitalsStayUpper(a);
    CapitalsStayTrimmed(a);
  }

  /** The name is spelled like these capitals, with capital or small letters. */
  predicate InAnyCase(name: string, capitals: string) {
    && |name| == |capitals|
    && forall k :: 0 <= k < |name| ==> name[k] == capitals[k] || name[k] as int == capitals[k] as int + 32
  }

  lemma {:induction false} CaseIsFolded(name: string, capitals: string)
    requires Capitals(capitals)
    ensures AsciiUpper(name) == capitals <==> InAnyCase(name, capitals)
  {
    if name != "" && capitals != "" {
      var n, c := name[1..], capitals[1..];
      assert Capitals(c);
      CaseIsFolded(n, c);
      assert capitals == [capitals[0]] + c;
      assert forall k :: 0 < k < |name| ==> name[k] == n[k - 1];
      assert forall k :: 0 < k < |capitals| ==> capitals[k] == c[k - 1];
    }
  }

  lemma OnlyCapitalsAreSpelled(b: Backend, a: string)
    requires Spelled(b, a).Some?
    ensures Capitals(a) && a != ""
  {
    if FromLogicalName(a).Some? {
      LogicalAliasesAreCapitals(FromLogicalName(a).value, a);
    }
  }

  lemma NamesAreTight(name: string, capitals: string)
    requires InAnyCase(name, capitals) && Capitals(capitals) && capitals != ""
    ensures Tight(name)
  {
    assert 'A' <= capitals[0] <= 'Z' && 'A' <= capitals[|capitals| - 1] <= 'Z';
  }

  /** Free text means a field exactly if it is one of the field's names, in capital or small letters and with
      blanks around it or not. */
  lemma NamesMeanTheirField(b: Backend, text: string, field: NumberingField)
    ensures FieldOf(b, Unknown(text)) == Some(field) <==>
            exists name, capitals ::
              Reads(text, name) && InAnyCase(name, capitals) && Spelled(b, capitals) == Some(field)
  {
    hide Spelled, Reads, Trim, AsciiUpper, InAnyCase, Capitals, Tight;
    if FieldOf(b, Unknown(text)) == Some(field) {
      var name, capitals := Trim(text), AsciiUpper(Trim(text));
      OnlyCapitalsAreSpelled(b, capitals);
      CaseIsFolded(name, capitals);
      NamesAreTight(name, capitals);
      TrimReads(text, name);
    }
    if name, capitals :| Reads(text, name) && InAnyCase(name, capitals) && Spelled(b, capitals) == Some(field) {
      OnlyCapitalsAreSpelled(b, capitals);
      CaseIsFolded(name, capitals);
      NamesAreTight(name, capitals);
      TrimReads(text, name);
      TightIsNotEmpty(name);
    }
  }

  lemma TightIsNotEmpty(t: string)
    requires Tight(t)
    ensures t != ""
  {}

  lemma CapitalsStayTrimmed(a: string)
    requires Capitals(a)
    ensures Trim(a) == a
  {}

  // ---- What a set of changes comes to. ----

  datatype Change = Change(key: ItemKey, value: Option<string>)

  datatype Normalized = Normalized(key: ItemKey, value: Option<string>, removals: seq<ItemKey>)

  datatype Rejection = NotTyped | Conflict(key: ItemKey, values: seq<Option<string>>)

  /** An empty value is a deletion. */
  function Clean(value: Option<string>): Option<string> {
    if value == Some("") then None else value
  }

  function Carriers(b: Backend, changes: set<Change>): set<ItemKey> {
    set ch | ch in changes :: Carrier(b, ch.key)
  }

  function ValuesOf(b: Backend, changes: set<Change>, c: ItemKey): set<Option<string>> {
    set ch | ch in changes && Carrier(b, ch.key) == c :: Clean(ch.value)
  }

  function RemovalsOf(b: Backend, changes: set<Change>, c: ItemKey): set<ItemKey> {
    set ch, k | ch in changes && Carrier(b, ch.key) == c && k in RemovalKeys(b, ch.key) :: k
  }

  /** The name that orders item keys. */
  function SortKey(key: ItemKey): string {
    match key
    case Numbering(TrackNumber) => "TrackNumber"
    case Numbering(TrackTotal) => "TrackTotal"
    case Numbering(DiscNumber) => "DiscNumber"
    case Numbering(DiscTotal) => "DiscTotal"
    case Typed(variant) => variant
    case Unknown(name) => "Unknown(" + name + ")"
  }

  /** The order of values: a deletion before any text, texts in their own order. */
  function ValueKey(value: Option<string>): string {
    match value case None => "" case Some(text) => "=" + text
  }

  lemma OnlyTextHasAParenthesis(key: ItemKey)
    ensures '(' in SortKey(key) <==> key.Unknown?
  {
    assert key.Unknown? ==> SortKey(key)[7] == '(';
  }

  lemma SortKeysDiffer(a: ItemKey, b: ItemKey)
    requires SortKey(a) == SortKey(b)
    ensures a == b
  {
    OnlyTextHasAParenthesis(a);
    OnlyTextHasAParenthesis(b);
    if a.Unknown? {
      assert SortKey(a)[8..|SortKey(a)| - 1] == a.name && SortKey(b)[8..|SortKey(b)| - 1] == b.name;
    }
  }

  lemma ValueKeysDiffer(a: Option<string>, b: Option<string>)
    requires ValueKey(a) == ValueKey(b)
    ensures a == b
  {
    if a.Some? && b.Some? {
      assert ValueKey(a)[1..] == a.value && ValueKey(b)[1..] == b.value;
    }
  }

  function Keys(out: seq<Normalized>): (keys: seq<ItemKey>)
    ensures |keys| == |out| && forall i :: 0 <= i < |out| ==> keys[i] == out[i].key
  {
    if out == [] then [] else [out[0].key] + Keys(out[1..])
  }

  /** No two changes to `c` disagree. */
  predicate Agreed(b: Backend, changes: set<Change>, c: ItemKey) {
    forall x, y :: x in ValuesOf(b, changes, c) && y in ValuesOf(b, changes, c) ==> x == y
  }

  /** `entry` is all there is to say about its carrier. */
  predicate Settles(b: Backend, changes: set<Change>, entry: Normalized) {
    && ValuesOf(b, changes, entry.key) == {entry.value}
    && Lists(entry.removals, RemovalsOf(b, changes, entry.key), SortKey)
  }

  /** The result for a set of changes: the carriers in order with their one value each, or the first
      carrier that has several, with its values in order. */
  predicate Describes(b: Backend, changes: set<Change>, r: Result<seq<Normalized>, Rejection>) {
    if !IsTypedBackend(b) then r == Err(NotTyped)
    else match r
      case Ok(out) =>
        && Lists(Keys(out), Carriers(b, changes), SortKey)
        && forall i :: 0 <= i < |out| ==> Settles(b, changes, out[i])
      case Err(NotTyped) => false
      case Err(Conflict(c, values)) =>
        && c in Carriers(b, changes) && !Agreed(b, changes, c)
        && Lists(values, ValuesOf(b, changes, c), ValueKey)
        && forall d :: d in Carriers(b, changes) && Less(SortKey(d), SortKey(c)) ==> Agreed(b, changes, d)
  }

  /** A set of changes has only one result, so no order or repetition of them can matter. */
  lemma ResultDependsOnTheSetOnly(b: Backend, changes: set<Change>,
                                  r: Result<seq<Normalized>, Rejection>, t: Result<seq<Normalized>, Rejection>)
    requires Describes(b, changes, r) && Describes(b, changes, t)
    ensures r == t
  {
    hide Carriers, ValuesOf, RemovalsOf, SortKey, ValueKey, Less;
    if IsTypedBackend(b) {
      ErrsExactlyOnDisagreement(b, changes, r);
      ErrsExactlyOnDisagreement(b, changes, t);
      if r.Ok? {
        ListingIsUnique(Keys(r.value), Keys(t.value), Carriers(b, changes), SortKey);
        forall i | 0 <= i < |r.value| ensures r.value[i] == t.value[i] {
          assert r.value[i].key == Keys(r.value)[i] == Keys(t.value)[i] == t.value[i].key;
          assert r.value[i].value in {t.value[i].value};
          ListingIsUnique(r.value[i].removals, t.value[i].removals, RemovalsOf(b, changes, r.value[i].key), SortKey);
        }
        assert |r.value| == |Keys(r.value)| == |t.value| && r.value == t.value;
      } else {
        LessIsTotal(SortKey(r.error.key), SortKey(t.error.key));
        if SortKey(r.error.key) == SortKey(t.error.key) {
          SortKeysDiffer(r.error.key, t.error.key);
        }
        ListingIsUnique(r.error.values, t.error.values, ValuesOf(b, changes, r.error.key), ValueKey);
      }
    }
  }

  /** Two different texts, or a text and a deletion. No value and an empty one are both deletions. */
  predicate Disagree(v: Option<string>, w: Option<string>) {
    v != w && !((v == None || v == Some("")) && (w == None || w == Some("")))
  }

  /** What is settled is what every change of the carrier says. */
  lemma SettledIsWhatChangesSay(b: Backend, changes: set<Change>, entry: Normalized, ch: Change)
    requires Settles(b, changes, entry) && ch in changes && Carrier(b, ch.key) == entry.key
    ensures entry.value == if ch.value == Some("") then None else ch.value
  {
    assert Clean(ch.value) in ValuesOf(b, changes, entry.key);
  }

  /** The backends whose carrier takes keys as they are spelled, or writes nothing, are refused, and no others. */
  lemma UntypedBackendsAreRefused(b: Backend, changes: set<Change>, r: Result<seq<Normalized>, Rejection>)
    requires Describes(b, changes, r)
    ensures r == Err(NotTyped) <==>
            || b.NativeFlacVorbis? || b.NativeDsfId3? || b.LoftyVorbisComments?
            || b.ReadOnlyApeFamily? || b.UnsupportedDff? || b.UnclassifiedLofty?
  {}

  lemma CleaningShowsDisagreement(v: Option<string>, w: Option<string>)
    ensures Disagree(v, w) <==> Clean(v) != Clean(w)
  {}

  lemma RefusedChangesDisagree(b: Backend, changes: set<Change>, c: ItemKey) returns (x: Change, y: Change)
    requires !Agreed(b, changes, c)
    ensures x in changes && y in changes && Carrier(b, x.key) == c == Carrier(b, y.key) && Disagree(x.value, y.value)
  {
    hide Carrier, Clean, Disagree;
    var v, w :| v in ValuesOf(b, changes, c) && w in ValuesOf(b, changes, c) && v != w;
    x :| x in changes && Carrier(b, x.key) == c && Clean(x.value) == v;
    y :| y in changes && Carrier(b, y.key) == c && Clean(y.value) == w;
    CleaningShowsDisagreement(x.value, y.value);
  }

  lemma AcceptedChangesAgree(b: Backend, changes: set<Change>, out: seq<Normalized>, x: Change, y: Change)
    requires IsTypedBackend(b) && Describes(b, changes, Ok(out)) && x in changes && y in changes
    requires Carrier(b, x.key) == Carrier(b, y.key)
    ensures !Disagree(x.value, y.value)
  {
    hide Carrier, Clean, Disagree, SortKey;
    var c := Carrier(b, x.key);
    assert c in Elements(Keys(out));
    var i :| 0 <= i < |out| && Keys(out)[i] == c;
    assert Settles(b, changes, out[i]);
    assert Clean(x.value) in ValuesOf(b, changes, c) && Clean(y.value) in ValuesOf(b, changes, c);
    CleaningShowsDisagreement(x.value, y.value);
  }

  /** The changes are refused exactly when two of them disagree about one carrier. */
  lemma ErrsExactlyOnDisagreement(b: Backend, changes: set<Change>, r: Result<seq<Normalized>, Rejection>)
    requires IsTypedBackend(b) && Describes(b, changes, r)
    ensures r.Err? <==> exists x, y :: x in changes && y in changes
                          && Carrier(b, x.key) == Carrier(b, y.key) && Disagree(x.value, y.value)
  {
    if r.Err? {
      hide Carrier, Disagree, ValuesOf, Less, SortKey;
      var x, y := RefusedChangesDisagree(b, changes, r.error.key);
    } else {
      hide Carrier, Disagree, Describes;
      forall x, y | x in changes && y in changes && Carrier(b, x.key) == Carrier(b, y.key)
        ensures !Disagree(x.value, y.value)
      {
        AcceptedChangesAgree(b, changes, r.value, x, y);
      }
    }
  }

  // ---- The merge. ----

  datatype Pending = Pending(key: ItemKey, values: seq<Option<string>>, removals: seq<ItemKey>)

  predicate NoRepeats<T(==)>(s: seq<T>) {
    forall i, j :: 0 <= i < j < |s| ==> s[i] != s[j]
  }

  function AddMissing<T(==)>(s: seq<T>, x: T): (r: seq<T>)
    ensures NoRepeats(s) ==> NoRepeats(r)
    ensures Elements(r) == Elements(s) + {x}
  {
    assert Elements(s + [x]) == Elements(s) + {x};
    if x in s then (assert x in Elements(s); assert Elements(s) + {x} == Elements(s); s) else s + [x]
  }

  /** The values and removal keys of one pending carrier are those of its changes, without repeats. */
  predicate Gathered(b: Backend, changes: set<Change>, p: Pending) {
    && NoRepeats(p.values) && Elements(p.values) == ValuesOf(b, changes, p.key)
    && NoRepeats(p.removals) && Elements(p.removals) == RemovalsOf(b, changes, p.key)
  }

  predicate OneEntryEach(pending: seq<Pending>) {
    forall i, j :: 0 <= i < j < |pending| ==> pending[i].key != pending[j].key
  }

  predicate HasEntry(pending: seq<Pending>, c: ItemKey) {
    exists i :: 0 <= i < |pending| && pending[i].key == c
  }

  ghost predicate Gathers(b: Backend, changes: set<Change>, pending: seq<Pending>) {
    && OneEntryEach(pending)
    && (forall i :: 0 <= i < |pending| ==> Gathered(b, changes, pending[i]))
    && (forall c :: c in Carriers(b, changes) <==> HasEntry(pending, c))
  }

  lemma OneMoreChange(b: Backend, changes: set<Change>, ch: Change, c: ItemKey)
    ensures Carriers(b, changes + {ch}) == Carriers(b, changes) + {Carrier(b, ch.key)}
    ensures ValuesOf(b, changes + {ch}, c) ==
            ValuesOf(b, changes, c) + if Carrier(b, ch.key) == c then {Clean(ch.value)} else {}
    ensures RemovalsOf(b, changes + {ch}, c) ==
            RemovalsOf(b, changes, c) + if Carrier(b, ch.key) == c then RemovalKeys(b, ch.key) else {}
  {
    CarriersGrow(b, changes, ch);
    ValuesGrow(b, changes, ch, c);
    RemovalsGrow(b, changes, ch, c);
  }

  lemma CarriersGrow(b: Backend, changes: set<Change>, ch: Change)
    ensures Carriers(b, changes + {ch}) == Carriers(b, changes) + {Carrier(b, ch.key)}
  {
    forall k ensures k in Carriers(b, changes + {ch}) <==> k in Carriers(b, changes) + {Carrier(b, ch.key)} {
      if k in Carriers(b, changes) { var x :| x in changes && Carrier(b, x.key) == k; assert x in changes + {ch}; }
      if k == Carrier(b, ch.key) { assert ch in changes + {ch}; }
    }
  }

  lemma ValuesGrow(b: Backend, changes: set<Change>, ch: Change, c: ItemKey)
    ensures ValuesOf(b, changes + {ch}, c) ==
            ValuesOf(b, changes, c) + if Carrier(b, ch.key) == c then {Clean(ch.value)} else {}
  {
    forall v ensures v in ValuesOf(b, changes + {ch}, c) <==>
                     v in ValuesOf(b, changes, c) + if Carrier(b, ch.key) == c then {Clean(ch.value)} else {}
    {
      if v in ValuesOf(b, changes, c) {
        var x :| x in changes && Carrier(b, x.key) == c && Clean(x.value) == v;
        assert x in changes + {ch};
      }
      if Carrier(b, ch.key) == c { assert ch in changes + {ch}; }
    }
  }

  lemma RemovalsGrow(b: Backend, changes: set<Change>, ch: Change, c: ItemKey)
    ensures RemovalsOf(b, changes + {ch}, c) ==
            RemovalsOf(b, changes, c) + if Carrier(b, ch.key) == c then RemovalKeys(b, ch.key) else {}
  {
    forall k ensures k in RemovalsOf(b, changes + {ch}, c) <==>
                     k in RemovalsOf(b, changes, c) + if Carrier(b, ch.key) == c then RemovalKeys(b, ch.key) else {}
    {
      if k in RemovalsOf(b, changes, c) {
        var x :| x in changes && Carrier(b, x.key) == c && k in RemovalKeys(b, x.key);
        assert x in changes + {ch};
      }
      if Carrier(b, ch.key) == c { assert ch in changes + {ch}; }
    }
  }

  ghost predicate Absorbs(b: Backend, p: Pending, ch: Change, q: Pending) {
    && q.key == p.key && NoRepeats(q.values) && NoRepeats(q.removals)
    && Elements(q.values) == Elements(p.values) + {Clean(ch.value)}
    && Elements(q.removals) == Elements(p.removals) + RemovalKeys(b, ch.key)
  }

  /** Take one change into the pending entry of its carrier. */
  method Absorb(b: Backend, p: Pending, ch: Change) returns (q: Pending)
    requires NoRepeats(p.values) && NoRepeats(p.removals) && p.key == Carrier(b, ch.key)
    ensures Absorbs(b, p, ch, q)
  {
    var values := AddMissing(p.values, Clean(ch.value));
    var removals := AddMissing(p.removals, ch.key);
    if FieldOf(b, ch.key).Some? {
      removals := AddAliases(b, FieldOf(b, ch.key).value, removals);
    }
    q := Pending(p.key, values, AddMissing(removals, p.key));
  }

  method AddAliases(b: Backend, field: NumberingField, removals: seq<ItemKey>) returns (r: seq<ItemKey>)
    requires NoRepeats(removals)
    ensures NoRepeats(r) && Elements(r) == Elements(removals) + Aliases(b, field)
  {
    hide LogicalAliases, BackendAliases, Aliases;
    var aliases := LogicalAliases(field) + BackendAliases(b, field);
    r := removals;
    for i := 0 to |aliases|
      invariant NoRepeats(r) && Elements(r) == Elements(removals) + FirstAliases(aliases, i)
    {
      ghost var known := Elements(r);
      r := AddMissing(r, Unknown(aliases[i]));
      assert FirstAliases(aliases, i + 1) == FirstAliases(aliases, i) + {Unknown(aliases[i])};
      assert Elements(r) == known + {Unknown(aliases[i])};
    }
    AllAliases(b, field, aliases);
  }

  function FirstAliases(aliases: seq<string>, n: nat): set<ItemKey>
    requires n <= |aliases|
  {
    if n == 0 then {} else FirstAliases(aliases, n - 1) + {Unknown(aliases[n - 1])}
  }

  lemma {:induction false} FirstAliasesAre(aliases: seq<string>, n: nat, x: ItemKey)
    requires n <= |aliases|
    ensures x in FirstAliases(aliases, n) <==> exists k :: 0 <= k < n && x == Unknown(aliases[k])
  {
    if n > 0 {
      FirstAliasesAre(aliases, n - 1, x);
    }
  }

  lemma AllAliases(b: Backend, field: NumberingField, aliases: seq<string>)
    requires aliases == LogicalAliases(field) + BackendAliases(b, field)
    ensures FirstAliases(aliases, |aliases|) == Aliases(b, field)
  {
    forall x: ItemKey ensures x in FirstAliases(aliases, |aliases|) <==> x in Aliases(b, field) {
      FirstAliasesAre(aliases, |aliases|, x);
      if x in Aliases(b, field) {
        var a :| (a in LogicalAliases(field) || a in BackendAliases(b, field)) && x == Unknown(a);
        assert a in aliases;
      }
    }
  }

  /** Where the pending entry of a carrier is, or the end. */
  function Position(pending: seq<Pending>, c: ItemKey): (i: nat)
    ensures i <= |pending|
    ensures i < |pending| ==> pending[i].key == c
    ensures forall k :: 0 <= k < i ==> pending[k].key != c
  {
    if pending == [] || pending[0].key == c then 0 else 1 + Position(pending[1..], c)
  }

  /** An entry stays gathered when its carrier has absorbed the change, or another carrier has. */
  lemma EntryStaysGathered(b: Backend, changes: set<Change>, ch: Change, p: Pending, q: Pending)
    requires Gathered(b, changes, p) && q.key == p.key
    requires if p.key == Carrier(b, ch.key) then Absorbs(b, p, ch, q) else q == p
    ensures Gathered(b, changes + {ch}, q)
  {
    OneMoreChange(b, changes, ch, p.key);
  }

  lemma EmptyEntryIsGathered(b: Backend, changes: set<Change>, c: ItemKey)
    requires c !in Carriers(b, changes)
    ensures Gathered(b, changes, Pending(c, [], []))
  {}

  /** The loop's list with the entry of one carrier replaced, or added. */
  function Replace(pending: seq<Pending>, index: nat, q: Pending): seq<Pending>
    requires index <= |pending|
  {
    if index < |pending| then pending[index := q] else pending + [q]
  }

  lemma ReplacedEntries(pending: seq<Pending>, c: ItemKey, q: Pending)
    requires OneEntryEach(pending) && q.key == c
    ensures OneEntryEach(Replace(pending, Position(pending, c), q))
    ensures forall d :: HasEntry(Replace(pending, Position(pending, c), q), d) <==> HasEntry(pending, d) || d == c
  {
    var index := Position(pending, c);
    var after := Replace(pending, index, q);
    assert forall i :: 0 <= i < |after| && i != index ==> after[i] == pending[i];
    forall d ensures HasEntry(after, d) <==> HasEntry(pending, d) || d == c {
      if HasEntry(pending, d) {
        var i :| 0 <= i < |pending| && pending[i].key == d;
        assert after[i].key == d;
      }
      if d == c { assert after[index].key == d; }
    }
  }

  lemma AbsorbedGathers(b: Backend, changes: set<Change>, pending: seq<Pending>, ch: Change, q: Pending)
    requires Gathers(b, changes, pending) && q.key == Carrier(b, ch.key) && Gathered(b, changes + {ch}, q)
    ensures Gathers(b, changes + {ch}, Replace(pending, Position(pending, q.key), q))
  {
    var index := Position(pending, q.key);
    var after := Replace(pending, index, q);
    CarriersGrow(b, changes, ch);
    ReplacedEntries(pending, q.key, q);
    forall i | 0 <= i < |after| ensures Gathered(b, changes + {ch}, after[i]) {
      if i != index {
        assert after[i] == pending[i] && pending[i].key != q.key;
        EntryStaysGathered(b, changes, ch, pending[i], pending[i]);
      }
    }
  }

  /** The pending entry of a carrier, new if there is none. */
  function EntryOf(pending: seq<Pending>, c: ItemKey): Pending {
    if Position(pending, c) < |pending| then pending[Position(pending, c)] else Pending(c, [], [])
  }

  lemma EntryIsGathered(b: Backend, changes: set<Change>, pending: seq<Pending>, c: ItemKey)
    requires Gathers(b, changes, pending)
    ensures Gathered(b, changes, EntryOf(pending, c)) && EntryOf(pending, c).key == c
  {
    if Position(pending, c) == |pending| {
      EmptyEntryIsGathered(b, changes, c);
    }
  }

  lemma ChangeIsAbsorbed(b: Backend, changes: set<Change>, pending: seq<Pending>, ch: Change, q: Pending)
    requires Gathers(b, changes, pending) && Absorbs(b, EntryOf(pending, Carrier(b, ch.key)), ch, q)
    ensures Gathers(b, changes + {ch}, Replace(pending, Position(pending, Carrier(b, ch.key)), q))
  {
    EntryIsGathered(b, changes, pending, Carrier(b, ch.key));
    EntryStaysGathered(b, changes, ch, EntryOf(pending, Carrier(b, ch.key)), q);
    AbsorbedGathers(b, changes, pending, ch, q);
  }

  method NormalizedTypedLoftyChanges(b: Backend, changes: seq<Change>)
    returns (r: Result<seq<Normalized>, Rejection>)
    ensures Describes(b, Elements(changes), r)
  {
    if !IsTypedBackend(b) {
      return Err(NotTyped);
    }
    var pending: seq<Pending> := [];
    ghost var seen: set<Change> := {};
    assert Carriers(b, {}) == {};
    for i := 0 to |changes|
      invariant seen == Elements(changes[..i])
      invariant Gathers(b, seen, pending)
    {
      var ch := changes[i];
      var carrier := Carrier(b, ch.key);
      var index := Position(pending, carrier);
      EntryIsGathered(b, seen, pending, carrier);
      var q := Absorb(b, EntryOf(pending, carrier), ch);
      ChangeIsAbsorbed(b, seen, pending, ch, q);
      pending := if index < |pending| then pending[index := q] else pending + [q];
      assert changes[..i + 1] == changes[..i] + [ch];
      seen := seen + {ch};
    }
    assert changes[..|changes|] == changes;
    r := Resolve(b, Elements(changes), pending);
  }

  /** Sort the carriers and give each its one value, unless one has several. */
  method Resolve(b: Backend, ghost changes: set<Change>, pending: seq<Pending>)
    returns (r: Result<seq<Normalized>, Rejection>)
    requires IsTypedBackend(b) && Gathers(b, changes, pending)
    ensures Describes(b, changes, r)
  {
    var name := (p: Pending) => SortKey(p.key);
    var sorted := Sorted(pending, name);
    SortedEntries(b, changes, pending, sorted, name);
    var resolved: seq<Normalized> := [];
    for i := 0 to |sorted|
      invariant |resolved| == i
      invariant forall k :: 0 <= k < i ==> resolved[k].key == sorted[k].key && Settles(b, changes, resolved[k])
    {
      var p := sorted[i];
      var values := Sorted(p.values, ValueKey);
      GatheredSorts(b, changes, p);
      if |values| > 1 {
        EarlierCarriersAgree(b, changes, sorted, resolved, i);
        return Err(Conflict(p.key, values));
      }
      resolved := resolved + [Normalized(p.key, values[0], Sorted(p.removals, SortKey))];
    }
    KeysAreListed(b, changes, sorted, resolved);
    r := Ok(resolved);
  }

  /** The sorted entries are the gathered ones, by increasing carrier. */
  predicate InOrder(b: Backend, changes: set<Change>, sorted: seq<Pending>) {
    && (forall i, j :: 0 <= i < j < |sorted| ==> Less(SortKey(sorted[i].key), SortKey(sorted[j].key)))
    && (forall i :: 0 <= i < |sorted| ==> Gathered(b, changes, sorted[i]) && sorted[i].key in Carriers(b, changes))
    && (forall c :: c in Carriers(b, changes) ==> HasEntry(sorted, c))
  }

  lemma SortedEntries(b: Backend, changes: set<Change>, pending: seq<Pending>, sorted: seq<Pending>,
                      name: Pending -> string)
    requires Gathers(b, changes, pending) && sorted == Sorted(pending, name) && forall p :: name(p) == SortKey(p.key)
    ensures InOrder(b, changes, sorted)
  {
    forall i, j | 0 <= i < j < |pending| ensures name(pending[i]) != name(pending[j]) {
      if name(pending[i]) == name(pending[j]) {
        SortKeysDiffer(pending[i].key, pending[j].key);
      }
    }
    SortedLists(pending, name);
    forall i | 0 <= i < |sorted| ensures Gathered(b, changes, sorted[i]) && sorted[i].key in Carriers(b, changes) {
      assert sorted[i] in Elements(sorted);
      var k :| 0 <= k < |pending| && pending[k] == sorted[i];
      assert HasEntry(pending, sorted[i].key);
    }
    forall c | c in Carriers(b, changes) ensures HasEntry(sorted, c) {
      var k :| 0 <= k < |pending| && pending[k].key == c;
      assert pending[k] in Elements(pending);
      var i :| 0 <= i < |sorted| && sorted[i] == pending[k];
    }
  }

  lemma GatheredSorts(b: Backend, changes: set<Change>, p: Pending)
    requires Gathered(b, changes, p) && p.key in Carriers(b, changes)
    ensures Lists(Sorted(p.values, ValueKey), ValuesOf(b, changes, p.key), ValueKey)
    ensures Lists(Sorted(p.removals, SortKey), RemovalsOf(b, changes, p.key), SortKey)
    ensures |Sorted(p.values, ValueKey)| >= 1
    ensures |Sorted(p.values, ValueKey)| == 1 ==> ValuesOf(b, changes, p.key) == {Sorted(p.values, ValueKey)[0]}
    ensures |Sorted(p.values, ValueKey)| > 1 ==> !Agreed(b, changes, p.key)
  {
    forall i, j | 0 <= i < j < |p.values| ensures ValueKey(p.values[i]) != ValueKey(p.values[j]) {
      if ValueKey(p.values[i]) == ValueKey(p.values[j]) { ValueKeysDiffer(p.values[i], p.values[j]); }
    }
    forall i, j | 0 <= i < j < |p.removals| ensures SortKey(p.removals[i]) != SortKey(p.removals[j]) {
      if SortKey(p.removals[i]) == SortKey(p.removals[j]) { SortKeysDiffer(p.removals[i], p.removals[j]); }
    }
    SortedLists(p.values, ValueKey);
    SortedLists(p.removals, SortKey);
    var values := Sorted(p.values, ValueKey);
    var ch :| ch in changes && Carrier(b, ch.key) == p.key;
    assert Clean(ch.value) in Elements(values);
    if |values| > 1 {
      assert values[0] in Elements(values) && values[1] in Elements(values);
      LessIsTotal(ValueKey(values[0]), ValueKey(values[1]));
    }
  }

  lemma SettledAgrees(b: Backend, changes: set<Change>, entry: Normalized)
    requires Settles(b, changes, entry)
    ensures Agreed(b, changes, entry.key)
  {}

  lemma SmallerComesEarlier(b: Backend, changes: set<Change>, sorted: seq<Pending>, i: nat, d: ItemKey) returns (k: nat)
    requires InOrder(b, changes, sorted) && i < |sorted|
    requires d in Carriers(b, changes) && Less(SortKey(d), SortKey(sorted[i].key))
    ensures k < i && sorted[k].key == d
  {
    k :| 0 <= k < |sorted| && sorted[k].key == d;
    LessIsTotal(SortKey(d), SortKey(sorted[i].key));
  }

  lemma {:induction false} EarlierCarriersAgree(b: Backend, changes: set<Change>, sorted: seq<Pending>,
                                                resolved: seq<Normalized>, i: nat)
    requires InOrder(b, changes, sorted) && i < |sorted| && |resolved| == i
    requires forall k :: 0 <= k < i ==> resolved[k].key == sorted[k].key && Settles(b, changes, resolved[k])
    ensures forall d :: d in Carriers(b, changes) && Less(SortKey(d), SortKey(sorted[i].key)) ==> Agreed(b, changes, d)
  {
    forall d | d in Carriers(b, changes) && Less(SortKey(d), SortKey(sorted[i].key)) ensures Agreed(b, changes, d) {
      var k := SmallerComesEarlier(b, changes, sorted, i, d);
      SettledAgrees(b, changes, resolved[k]);
    }
  }

  lemma {:induction false} KeysAreListed(b: Backend, changes: set<Change>, sorted: seq<Pending>,
                                         resolved: seq<Normalized>)
    requires InOrder(b, changes, sorted) && |resolved| == |sorted|
    requires forall k :: 0 <= k < |sorted| ==> resolved[k].key == sorted[k].key
    ensures Lists(Keys(resolved), Carriers(b, changes), SortKey)
  {
    hide Gathered, Carriers, SortKey, Less;
    forall c | c in Carriers(b, changes) ensures c in Elements(Keys(resolved)) {
      var k :| 0 <= k < |sorted| && sorted[k].key == c;
      assert Keys(resolved)[k] == c;
    }
    assert Elements(Keys(resolved)) == Carriers(b, changes);
  }
}
