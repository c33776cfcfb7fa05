/** The name→value map of the JVM file vault and its text form.

    In memory the vault is a Kotlin LinkedHashMap: it remembers the order in
    which names were first inserted, and that order is the order of the
    records in the serialised text. It is modelled as a sequence of entries
    with distinct names; `AsMap` gives the plain map it stands for. */
module SecretMap {
  import opened Results

  datatype Entry = Entry(name: string, value: string)

  const RECORD_SEPARATOR: char := '\n'
  const FIELD_SEPARATOR: char := '='

  // ---------------------------------------------------------------------
  // The map view
  // ---------------------------------------------------------------------

  function Names(es: seq<Entry>): seq<string>
  {
    seq(|es|, i requires 0 <= i < |es| => es[i].name)
  }

  lemma NamesCons(es: seq<Entry>)
    requires es != []
    ensures Names(es) == [es[0].name] + Names(es[1..])
  {
  }

  /** No name occurs twice: the shape of every LinkedHashMap. */
  predicate Distinct(es: seq<Entry>)
  {
    forall i, j :: 0 <= i < j < |es| ==> es[i].name != es[j].name
  }

  /** The map an entry sequence denotes; a later entry for a name wins. */
  function AsMap(es: seq<Entry>): (m: map<string, string>)
    ensures forall n :: n in m <==> n in Names(es)
  {
    if es == [] then map[]
    else
      var rest := AsMap(es[1..]);
      NamesCons(es);
      map[es[0].name := es[0].value] + rest
  }

  /** Kotlin `map[name]` on the LinkedHashMap: the first entry with the name. */
  function Find(es: seq<Entry>, name: string): (r: Option<string>)
    ensures r.Some? <==> name in Names(es)
  {
    if es == [] then None
    else
      NamesCons(es);
      if es[0].name == name then Some(es[0].value) else Find(es[1..], name)
  }

  /** Kotlin `map[name] = value`: an existing name keeps its position and gets
      the new value; a new name is appended. */
  function Put(es: seq<Entry>, name: string, value: string): (r: seq<Entry>)
    ensures name in Names(es) ==> Names(r) == Names(es)
    ensures name !in Names(es) ==> r == es + [Entry(name, value)]
  {
    if es == [] then [Entry(name, value)]
    else
      NamesCons(es);
      if es[0].name == name then [Entry(name, value)] + es[1..]
      else
        var r := [es[0]] + Put(es[1..], name, value);
        NamesCons(r);
        r
  }

  /** Kotlin `map.remove(name)`: every entry with the name is dropped, the
      others keep their order. */
  function Remove(es: seq<Entry>, name: string): (r: seq<Entry>)
    ensures name !in Names(r)
    ensures forall n :: n != name ==> (n in Names(r) <==> n in Names(es))
  {
    if es == [] then []
    else
      var rest := Remove(es[1..], name);
      NamesCons(es);
      if es[0].name == name then rest
      else
        NamesCons([es[0]] + rest);
        [es[0]] + rest
  }

  /** Kotlin `associate`: the pairs are put one after the other into an empty
      LinkedHashMap, so the first occurrence fixes a name's position and the
      last occurrence fixes its value. The result has no duplicate names and
      keeps storability; `AssociateIsLastWins` gives its map view. */
  function Associate(pairs: seq<Entry>): (es: seq<Entry>)
    ensures Distinct(es)
    ensures AllStorable(pairs) ==> AllStorable(es)
  {
    if pairs == [] then []
    else
      var n := |pairs| - 1;
      var init := Associate(pairs[..n]);
      PutDistinct(init, pairs[n].name, pairs[n].value);
      assert AllStorable(pairs) ==> AllStorable(Put(init, pairs[n].name, pairs[n].value)) by {
        if AllStorable(pairs) {
          assert Storable(pairs[n]);
          PutStorable(init, pairs[n].name, pairs[n].value);
        }
      }
      Put(init, pairs[n].name, pairs[n].value)
  }

  // ---------------------------------------------------------------------
  // The text form
  // ---------------------------------------------------------------------

  /** `parts.joinToString(sep)`: the text starts with the first piece, and
      with the separator after it when more pieces follow. */
  function JoinWith(parts: seq<string>, sep: char): (s: string)
    ensures |parts| >= 1 ==> parts[0] <= s
    ensures |parts| >= 2 ==> parts[0] + [sep] <= s
  {
    if |parts| == 0 then ""
    else if |parts| == 1 then parts[0]
    else parts[0] + [sep] + JoinWith(parts[1..], sep)
  }

  /** Kotlin `s.split(sep)`: every occurrence of `sep` ends a piece and empty
      pieces are kept, so the empty string splits into one empty piece. */
  function SplitOn(s: string, sep: char): (parts: seq<string>)
    ensures |parts| >= 1
    ensures forall i :: 0 <= i < |parts| ==> sep !in parts[i]
    ensures JoinWith(parts, sep) == s
  {
    if s == [] then [""]
    else
      var rest := SplitOn(s[1..], sep);
      if s[0] == sep then
        assert s == [sep] + s[1..];
        [""] + rest
      else
        var parts := [[s[0]] + rest[0]] + rest[1..];
        assert JoinWith(parts, sep) == [s[0]] + JoinWith(rest, sep) by {
          if |rest| > 1 {
            assert parts[1..] == rest[1..];
          }
        }
        assert s == [s[0]] + s[1..];
        parts
  }

  /** Kotlin `record.split("=", limit = 2)` followed by the size check of
      `takeIf { it.size == 2 }`: a record is cut at its first `=` and a record
      without one is no entry. */
  function SplitRecord(record: string): (r: Option<Entry>)
    ensures r.None? <==> FIELD_SEPARATOR !in record
    ensures r.Some? ==> FIELD_SEPARATOR !in r.value.name
    ensures r.Some? ==> record == r.value.name + [FIELD_SEPARATOR] + r.value.value
  {
    if record == [] then None
    else
      assert record == [record[0]] + record[1..];
      if record[0] == FIELD_SEPARATOR then
        assert record == [] + [FIELD_SEPARATOR] + record[1..];
        Some(Entry([], record[1..]))
      else
        match SplitRecord(record[1..])
        case None => None
        case Some(e) =>
          var name := [record[0]] + e.name;
          assert FIELD_SEPARATOR !in name by {
            assert forall c :: c in name ==> c == record[0] || c in e.name;
          }
          assert name + [FIELD_SEPARATOR] + e.value == [record[0]] + (e.name + [FIELD_SEPARATOR] + e.value);
          Some(Entry(name, e.value))
  }

  /** `mapNotNull` of `SplitRecord` over the records: every entry kept was
      cut at the first `=` of its record, so no name holds one. */
  function Pairs(records: seq<string>): (es: seq<Entry>)
    ensures forall i :: 0 <= i < |es| ==> FIELD_SEPARATOR !in es[i].name
  {
    if records == [] then []
    else
      var e := SplitRecord(records[0]);
      if e.None? then Pairs(records[1..]) else [e.value] + Pairs(records[1..])
  }

  /** `"${key}=${value}"`: every record holds an `=`, so the reader never
      skips it. */
  function Record(e: Entry): (record: string)
    ensures FIELD_SEPARATOR in record
  {
    assert (e.name + [FIELD_SEPARATOR] + e.value)[|e.name|] == FIELD_SEPARATOR;
    e.name + [FIELD_SEPARATOR] + e.value
  }

  /** One record per entry, in the map's order. */
  function Records(es: seq<Entry>): (rs: seq<string>)
    ensures |rs| == |es|
    ensures forall i :: 0 <= i < |es| ==> rs[i] == Record(es[i])
  {
    if es == [] then [] else [Record(es[0])] + Records(es[1..])
  }

  /** saveVault's plaintext: `name=value` records joined by newlines. The
      empty map, and only the empty map, gives the empty text. */
  function Serialise(es: seq<Entry>): (text: string)
    ensures text == [] <==> es == []
  {
    var rs := Records(es);
    assert es != [] ==> rs[0] <= JoinWith(rs, RECORD_SEPARATOR) && rs[0] != [];
    JoinWith(rs, RECORD_SEPARATOR)
  }

  /** readVault's parser: split into records, keep those with a `=`, and
      associate them into a map. Whatever the text, the map has no duplicate
      names and every entry is storable. */
  function Parse(text: string): (es: seq<Entry>)
    ensures Distinct(es) && AllStorable(es)
  {
    var records := SplitOn(text, RECORD_SEPARATOR);
    PairsStorable(records);
    Associate(Pairs(records))
  }

  /** An entry that survives the text form: the name holds neither
      separator and the value holds no newline (it may hold `=`). */
  predicate Storable(e: Entry)
  {
    RECORD_SEPARATOR !in e.name && FIELD_SEPARATOR !in e.name && RECORD_SEPARATOR !in e.value
  }

  predicate AllStorable(es: seq<Entry>)
  {
    forall i :: 0 <= i < |es| ==> Storable(es[i])
  }

  // ---------------------------------------------------------------------
  // Laws of the map operations
  // ---------------------------------------------------------------------

  lemma SnocSplit<T>(s: seq<T>)
    requires s != []
    ensures s == s[..|s| - 1] + [s[|s| - 1]]
  {
  }

  lemma DistinctCons(es: seq<Entry>)
    requires es != []
    ensures Distinct(es) <==> es[0].name !in Names(es[1..]) && Distinct(es[1..])
  {
    NamesCons(es);
    if Distinct(es) {
      assert forall k :: 0 <= k < |es| - 1 ==> Names(es[1..])[k] == es[k + 1].name != es[0].name;
    }
    if es[0].name !in Names(es[1..]) && Distinct(es[1..]) {
      forall i, j | 0 <= i < j < |es| ensures es[i].name != es[j].name {
        if i == 0 {
          assert Names(es[1..])[j - 1] == es[j].name;
        } else {
          assert es[1..][i - 1] == es[i] && es[1..][j - 1] == es[j];
        }
      }
    }
  }

  /** In a map without duplicate names, an entry's value is the map's value. */
  lemma {:induction false} AsMapAt(es: seq<Entry>, i: nat)
    requires i < |es|
    requires forall j :: i < j < |es| ==> es[j].name != es[i].name
    ensures es[i].name in AsMap(es) && AsMap(es)[es[i].name] == es[i].value
  {
    if i == 0 {
      assert forall k :: 0 <= k < |es| - 1 ==> Names(es[1..])[k] == es[k + 1].name != es[0].name;
      assert es[0].name !in AsMap(es[1..]);
    } else {
      AsMapAt(es[1..], i - 1);
    }
  }

  /** Kotlin `get` on the LinkedHashMap agrees with the map view. */
  lemma {:induction false} FindIsLookup(es: seq<Entry>, name: string)
    requires Distinct(es)
    ensures Find(es, name) == if name in AsMap(es) then Some(AsMap(es)[name]) else None
  {
    if es != [] {
      DistinctCons(es);
      if es[0].name == name {
        AsMapAt(es, 0);
      } else {
        FindIsLookup(es[1..], name);
      }
    }
  }

  lemma {:induction false} AsMapSnoc(es: seq<Entry>, e: Entry)
    ensures AsMap(es + [e]) == AsMap(es)[e.name := e.value]
  {
    if es != [] {
      assert (es + [e])[1..] == es[1..] + [e];
      AsMapSnoc(es[1..], e);
    }
  }

  /** `map[name] = value` keeps the names distinct. */
  lemma {:induction false} PutDistinct(es: seq<Entry>, name: string, value: string)
    requires Distinct(es)
    ensures Distinct(Put(es, name, value))
  {
    var r := Put(es, name, value);
    if es != [] {
      DistinctCons(es);
      if es[0].name == name {
        assert r[1..] == es[1..];
      } else {
        PutDistinct(es[1..], name, value);
        assert r[1..] == Put(es[1..], name, value);
        assert es[0].name !in Names(r[1..]) by {
          if name !in Names(es[1..]) {
            assert Names(es[1..] + [Entry(name, value)]) == Names(es[1..]) + [name];
          }
        }
      }
      DistinctCons(r);
    }
  }

  /** `map[name] = value` sets exactly that name. */
  lemma {:induction false} PutIsUpdate(es: seq<Entry>, name: string, value: string)
    requires Distinct(es)
    ensures AsMap(Put(es, name, value)) == AsMap(es)[name := value]
  {
    if es != [] {
      DistinctCons(es);
      var head := map[es[0].name := es[0].value];
      var rest := AsMap(es[1..]);
      assert AsMap(es) == head + rest;
      if es[0].name == name {
        assert name !in rest;
        var r := [Entry(name, value)] + es[1..];
        assert r[1..] == es[1..];
        assert AsMap(r) == map[name := value] + rest;
        MapUpdateOfUnion(es[0].name, es[0].value, rest, name, value);
      } else {
        PutIsUpdate(es[1..], name, value);
        var r := [es[0]] + Put(es[1..], name, value);
        assert r[1..] == Put(es[1..], name, value);
        assert AsMap(r) == head + rest[name := value];
        MapUpdateOfUnion(es[0].name, es[0].value, rest, name, value);
      }
    }
  }

  /** Updating a map view that was built from a first entry and the rest. */
  lemma MapUpdateOfUnion(k: string, v: string, rest: map<string, string>, name: string, value: string)
    ensures k == name && name !in rest ==> map[name := value] + rest == (map[k := v] + rest)[name := value]
    ensures k != name ==> map[k := v] + rest[name := value] == (map[k := v] + rest)[name := value]
  {
  }

  lemma {:induction false} PutStorable(es: seq<Entry>, name: string, value: string)
    requires AllStorable(es) && Storable(Entry(name, value))
    ensures AllStorable(Put(es, name, value))
  {
    if es != [] && es[0].name != name {
      PutStorable(es[1..], name, value);
    }
  }

  /** `map.remove(name)` drops exactly that name. */
  lemma {:induction false} RemoveIsDelete(es: seq<Entry>, name: string)
    ensures AsMap(Remove(es, name)) == AsMap(es) - {name}
  {
    if es != [] {
      RemoveIsDelete(es[1..], name);
      var rest := AsMap(es[1..]);
      assert AsMap(es) == map[es[0].name := es[0].value] + rest;
      if es[0].name != name {
        var r := [es[0]] + Remove(es[1..], name);
        assert r[1..] == Remove(es[1..], name);
        assert AsMap(r) == map[es[0].name := es[0].value] + (rest - {name});
      }
      MapRemoveOfUnion(es[0].name, es[0].value, rest, name);
    }
  }

  /** Removing from a map view that was built from a first entry and the rest. */
  lemma MapRemoveOfUnion(k: string, v: string, rest: map<string, string>, name: string)
    ensures k == name ==> (map[k := v] + rest) - {name} == rest - {name}
    ensures k != name ==> map[k := v] + (rest - {name}) == (map[k := v] + rest) - {name}
  {
  }

  /** `map.remove(name)` keeps the other entries distinct and storable. */
  lemma {:induction false} RemoveKeepsShape(es: seq<Entry>, name: string)
    ensures Distinct(es) ==> Distinct(Remove(es, name))
    ensures AllStorable(es) ==> AllStorable(Remove(es, name))
  {
    if es != [] {
      RemoveKeepsShape(es[1..], name);
      var rest := Remove(es[1..], name);
      if es[0].name != name {
        DistinctCons(es);
        DistinctCons([es[0]] + rest);
        assert ([es[0]] + rest)[1..] == rest;
      }
    }
  }

  /** Removing a name that is not there changes nothing, not even the order. */
  lemma {:induction false} RemoveAbsent(es: seq<Entry>, name: string)
    requires name !in Names(es)
    ensures Remove(es, name) == es
  {
    if es != [] {
      NamesCons(es);
      RemoveAbsent(es[1..], name);
    }
  }

  /** `associate` yields a LinkedHashMap whose map view lets the last pair
      for a name win. */
  lemma {:induction false} AssociateIsLastWins(pairs: seq<Entry>)
    ensures AsMap(Associate(pairs)) == AsMap(pairs)
  {
    if pairs != [] {
      var n := |pairs| - 1;
      AssociateIsLastWins(pairs[..n]);
      PutIsUpdate(Associate(pairs[..n]), pairs[n].name, pairs[n].value);
      SnocSplit(pairs);
      AsMapSnoc(pairs[..n], pairs[n]);
    }
  }

  /** Pairs with distinct names are associated in their own order. */
  lemma {:induction false} AssociateDistinct(pairs: seq<Entry>)
    requires Distinct(pairs)
    ensures Associate(pairs) == pairs
  {
    if pairs != [] {
      var n := |pairs| - 1;
      var init, last := pairs[..n], pairs[n];
      SnocSplit(pairs);
      assert Distinct(init);
      AssociateDistinct(init);
      assert forall k :: 0 <= k < n ==> Names(init)[k] == pairs[k].name != last.name;
      assert last.name !in Names(init);
      assert Associate(pairs) == Put(init, last.name, last.value);
      assert Put(init, last.name, last.value) == init + [Entry(last.name, last.value)];
    }
  }

  // ---------------------------------------------------------------------
  // Laws of the text form
  // ---------------------------------------------------------------------

  lemma {:induction false} SplitPrefix(a: string, t: string, sep: char)
    requires sep !in a
    ensures SplitOn(a + t, sep) == [a + SplitOn(t, sep)[0]] + SplitOn(t, sep)[1..]
  {
    if a != [] {
      var x := SplitOn(t, sep);
      assert (a + t)[0] == a[0] && (a + t)[1..] == a[1..] + t;
      SplitPrefix(a[1..], t, sep);
      var rest := SplitOn(a[1..] + t, sep);
      assert rest[0] == a[1..] + x[0] && rest[1..] == x[1..];
      assert SplitOn(a + t, sep) == [[a[0]] + rest[0]] + rest[1..];
      assert a == [a[0]] + a[1..];
      assert [a[0]] + rest[0] == a + x[0];
    } else {
      var x := SplitOn(t, sep);
      assert a + t == t && a + x[0] == x[0];
      assert x == [x[0]] + x[1..];
    }
  }

  /** Splitting undoes joining, provided no piece holds the separator. */
  lemma {:induction false} SplitJoin(parts: seq<string>, sep: char)
    requires |parts| >= 1
    requires forall i :: 0 <= i < |parts| ==> sep !in parts[i]
    ensures SplitOn(JoinWith(parts, sep), sep) == parts
  {
    if |parts| == 1 {
      SplitPrefix(parts[0], "", sep);
      assert parts[0] + "" == parts[0];
    } else {
      var tail := JoinWith(parts[1..], sep);
      SplitJoin(parts[1..], sep);
      assert JoinWith(parts, sep) == parts[0] + ([sep] + tail);
      SplitPrefix(parts[0], [sep] + tail, sep);
      var y := SplitOn([sep] + tail, sep);
      assert ([sep] + tail)[0] == sep && ([sep] + tail)[1..] == tail;
      assert y == [""] + parts[1..];
      assert parts[0] + y[0] == parts[0];
      assert [parts[0] + y[0]] + y[1..] == [parts[0]] + parts[1..];
      assert parts == [parts[0]] + parts[1..];
    }
  }

  /** A record is cut at its first `=`, so it gives back the entry it was
      made from whatever `=` the value holds. */
  lemma SplitRecordOfRecord(e: Entry)
    requires FIELD_SEPARATOR !in e.name
    ensures SplitRecord(Record(e)) == Some(e)
  {
    var r := Record(e);
    var n := |e.name|;
    assert r[n] == FIELD_SEPARATOR;
    assert forall i :: 0 <= i < n ==> r[i] == e.name[i];
    var cut := SplitRecord(r).value;
    var m := |cut.name|;
    assert r[m] == FIELD_SEPARATOR;
    assert forall i :: 0 <= i < m ==> r[i] == cut.name[i];
    assert m == n;
    assert cut.name == r[..n] == e.name;
    assert cut.value == r[n + 1..] == e.value;
  }

  lemma {:induction false} PairsAppend(a: seq<string>, b: seq<string>)
    ensures Pairs(a + b) == Pairs(a) + Pairs(b)
  {
    if a != [] {
      assert (a + b)[0] == a[0] && (a + b)[1..] == a[1..] + b;
      PairsAppend(a[1..], b);
      var e := SplitRecord(a[0]);
      if e.Some? {
        assert Pairs(a + b) == [e.value] + Pairs(a[1..] + b);
        assert Pairs(a) == [e.value] + Pairs(a[1..]);
        assert [e.value] + (Pairs(a[1..]) + Pairs(b)) == ([e.value] + Pairs(a[1..])) + Pairs(b);
      }
    } else {
      assert a + b == b;
    }
  }

  lemma {:induction false} PairsOfRecords(es: seq<Entry>)
    requires forall i :: 0 <= i < |es| ==> FIELD_SEPARATOR !in es[i].name
    ensures Pairs(Records(es)) == es
  {
    if es != [] {
      SplitRecordOfRecord(es[0]);
      PairsOfRecords(es[1..]);
      assert Records(es)[1..] == Records(es[1..]);
    }
  }

  /** Every entry read from text is storable: it came from one line and was
      cut at its first `=`. */
  lemma {:induction false} PairsStorable(records: seq<string>)
    requires forall i :: 0 <= i < |records| ==> RECORD_SEPARATOR !in records[i]
    ensures AllStorable(Pairs(records))
  {
    if records != [] {
      PairsStorable(records[1..]);
      var r := SplitRecord(records[0]);
      if r.Some? {
        var e := r.value;
        assert records[0] == e.name + [FIELD_SEPARATOR] + e.value;
        assert forall c :: c in e.name || c in e.value ==> c in records[0];
      }
    }
  }

  /** The records of a text made of lines without newlines are those lines;
      the empty text is one empty line, which holds no record. */
  lemma PairsOfLines(lines: seq<string>)
    requires forall i :: 0 <= i < |lines| ==> RECORD_SEPARATOR !in lines[i]
    ensures Pairs(SplitOn(JoinWith(lines, RECORD_SEPARATOR), RECORD_SEPARATOR)) == Pairs(lines)
  {
    if lines == [] {
      assert SplitOn("", RECORD_SEPARATOR) == [""];
      assert SplitRecord("") == None;
    } else {
      SplitJoin(lines, RECORD_SEPARATOR);
    }
  }

  /** Round trip: text written by saveVault reads back as the same map, in
      the same order. */
  lemma ParseSerialise(es: seq<Entry>)
    requires Distinct(es) && AllStorable(es)
    ensures Parse(Serialise(es)) == es
  {
    var rs := Records(es);
    forall i | 0 <= i < |rs| ensures RECORD_SEPARATOR !in rs[i] {
      assert Storable(es[i]);
    }
    PairsOfLines(rs);
    PairsOfRecords(es);
    AssociateDistinct(es);
  }

  /** A line without `=` contributes no entry. */
  lemma PairsSkipLine(before: seq<string>, junk: string, after: seq<string>)
    requires FIELD_SEPARATOR !in junk
    ensures Pairs(before + [junk] + after) == Pairs(before + after)
  {
    PairsAppend(before + [junk], after);
    PairsAppend(before, [junk]);
    PairsAppend(before, after);
    assert Pairs([junk]) == [];
  }

  /** Lenient parsing: a line without `=` among the records is ignored. */
  lemma ParseSkipsLineWithoutSeparator(before: seq<string>, junk: string, after: seq<string>)
    requires forall i :: 0 <= i < |before| ==> RECORD_SEPARATOR !in before[i]
    requires forall i :: 0 <= i < |after| ==> RECORD_SEPARATOR !in after[i]
    requires RECORD_SEPARATOR !in junk && FIELD_SEPARATOR !in junk
    ensures Parse(JoinWith(before + [junk] + after, RECORD_SEPARATOR))
         == Parse(JoinWith(before + after, RECORD_SEPARATOR))
  {
    var withJunk := before + [junk] + after;
    var without := before + after;
    forall i | 0 <= i < |withJunk| ensures RECORD_SEPARATOR !in withJunk[i] {
      if i < |before| {
        assert withJunk[i] == before[i];
      } else if |before| < i {
        assert withJunk[i] == (before + [junk] + after)[i] == after[i - |before| - 1];
      }
    }
    forall i | 0 <= i < |without| ensures RECORD_SEPARATOR !in without[i] {
      if i < |before| {
        assert without[i] == before[i];
      } else {
        assert without[i] == after[i - |before|];
      }
    }
    PairsOfLines(withJunk);
    PairsOfLines(without);
    PairsSkipLine(before, junk, after);
  }

  /** No escaping: a name holding `=` is read back cut at its first `=`, so
      the secret moves to a shorter name and the rest joins the value. */
  lemma NameWithSeparatorIsMisread(a: string, b: string, value: string)
    requires FIELD_SEPARATOR !in a
    requires RECORD_SEPARATOR !in a && RECORD_SEPARATOR !in b && RECORD_SEPARATOR !in value
    ensures Parse(Serialise([Entry(a + [FIELD_SEPARATOR] + b, value)]))
         == [Entry(a, b + [FIELD_SEPARATOR] + value)]
  {
    var moved := Entry(a, b + [FIELD_SEPARATOR] + value);
    var line := Record(moved);
    assert Record(Entry(a + [FIELD_SEPARATOR] + b, value)) == line;
    assert Records([Entry(a + [FIELD_SEPARATOR] + b, value)]) == [line];
    assert RECORD_SEPARATOR !in line by {
      assert forall c :: c in line ==> c in a || c == FIELD_SEPARATOR || c in b || c in value;
    }
    SplitJoin([line], RECORD_SEPARATOR);
    SplitRecordOfRecord(moved);
    assert Pairs([line]) == [moved];
    AssociateDistinct([moved]);
  }

  /** No escaping: a value holding a newline followed by `name=value` is read
      back as two secrets. */
  lemma ValueWithNewlineIsMisread(name: string, v1: string, name2: string, v2: string)
    requires Storable(Entry(name, v1)) && Storable(Entry(name2, v2)) && name != name2
    ensures Parse(Serialise([Entry(name, v1 + [RECORD_SEPARATOR] + name2 + [FIELD_SEPARATOR] + v2)]))
         == [Entry(name, v1), Entry(name2, v2)]
  {
    var entries := [Entry(name, v1), Entry(name2, v2)];
    var lines := Records(entries);
    var joined := Entry(name, v1 + [RECORD_SEPARATOR] + name2 + [FIELD_SEPARATOR] + v2);
    assert Records([joined]) == [Record(joined)];
    assert Record(joined) == lines[0] + [RECORD_SEPARATOR] + lines[1];
    assert JoinWith(lines, RECORD_SEPARATOR) == lines[0] + [RECORD_SEPARATOR] + lines[1] by {
      assert lines[1..] == [lines[1]];
    }
    forall i | 0 <= i < 2 ensures RECORD_SEPARATOR !in lines[i] {
      assert Storable(entries[i]);
      assert forall c :: c in lines[i] ==> c in entries[i].name || c == FIELD_SEPARATOR || c in entries[i].value;
    }
    SplitJoin(lines, RECORD_SEPARATOR);
    PairsOfRecords(entries);
    AssociateDistinct(entries);
  }
}
