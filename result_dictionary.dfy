/**
  The result dictionary built from the EVENTS header (`setResultDictionary`):
  every keyword k other than HISTORY is copied to HEADER_k; the HISTORY lines are
  read once, at the first HISTORY keyword, and each line of the form
  "... YAML-- name:value" stores DAQCONFIG_name (an int when the value parses as
  one, the text otherwise); TOTAL_COUNTS is int(NAXIS2), and RAW_RATE is
  float(NAXIS2) / float(HEADER_EXPOSURE).
*/
module ResultDictionary {
  import opened Wrappers
  import opened PyScalars
  import IntText
  import TextSplit

  /** One header card: its keyword and its value. */
  datatype Card = Card(keyword: string, value: Value)

  /** The exceptions setResultDictionary can raise. */
  datatype HeaderError =
    | HistoryNotText  // a HISTORY value that is not a str has no split()
    | MissingNaxis2   // header['NAXIS2'] raises KeyError
    | BadNaxis2       // int(header['NAXIS2']) raises ValueError
    | NaxisNotFloat   // float(header['NAXIS2']) raises ValueError
    | MissingExposure // result['HEADER_EXPOSURE'] raises KeyError
    | BadExposure     // float(result['HEADER_EXPOSURE']) raises ValueError
    | ZeroExposure    // the division raises ZeroDivisionError

  const HistoryKeyword: string := "HISTORY"

  /** The marker that precedes a configuration entry in a HISTORY line. */
  const Marker: string := "YAML-- "

  const HeaderPrefix: string := "HEADER_"
  const DaqPrefix: string := "DAQCONFIG_"
  const TotalCountsKey: string := "TOTAL_COUNTS"
  const RawRateKey: string := "RAW_RATE"
  const ExposureKeyword: string := "EXPOSURE"

  predicate HasPrefix(key: string, prefix: string) {
    |prefix| <= |key| && key[..|prefix|] == prefix
  }

  /** The index of the first card with keyword k. */
  function FirstIndex(h: seq<Card>, k: string): (r: Option<nat>)
    ensures r.Some? ==> r.value < |h| && h[r.value].keyword == k
    ensures r.Some? ==> forall j :: 0 <= j < r.value ==> h[j].keyword != k
    ensures r.None? ==> forall j :: 0 <= j < |h| ==> h[j].keyword != k
    decreases |h|
  {
    if h == [] then None
    else if h[0].keyword == k then Some(0)
    else match FirstIndex(h[1..], k)
      case None => None
      case Some(i) => Some(i + 1)
  }

  /** header[k]: the value of the first card with keyword k; None where it raises KeyError. */
  function Lookup(h: seq<Card>, k: string): (r: Option<Value>)
    ensures r.Some? <==> exists i :: 0 <= i < |h| && h[i].keyword == k
  {
    match FirstIndex(h, k)
    case None => None
    case Some(i) => Some(h[i].value)
  }

  /** header['HISTORY']: the values of all HISTORY cards, in header order. */
  function HistoryValues(h: seq<Card>): seq<Value>
    decreases |h|
  {
    if h == [] then []
    else
      HistoryValues(h[..|h| - 1])
      + (if h[|h| - 1].keyword == HistoryKeyword then [h[|h| - 1].value] else [])
  }

  /** The values as strs, if they all are. */
  function Texts(vs: seq<Value>): (r: Option<seq<string>>)
    ensures r.Some? <==> forall i :: 0 <= i < |vs| ==> vs[i].Str?
    ensures r.Some? ==> |r.value| == |vs| && forall i :: 0 <= i < |vs| ==> vs[i] == Str(r.value[i])
    decreases |vs|
  {
    if vs == [] then Some([])
    else
      var init := Texts(vs[..|vs| - 1]);
      var last := vs[|vs| - 1];
      if init.Some? && last.Str? then Some(init.value + [last.s]) else None
  }

  /** The stored form of a configuration value: int(field), or the field itself when int() raises. */
  function ConfigValue(field: string): Value {
    match IntText.ParseInt(field)
    case Some(n) => Int(n)
    case None => Str(field)
  }

  /** The text after the last marker of a line (the whole line when it has none). */
  function AfterMarker(line: string): string {
    TextSplit.Last(TextSplit.Split(line, Marker))
  }

  /** The entry one HISTORY line stores: split the text after the last marker on ':'. */
  function HistoryEntry(line: string): (r: Option<(string, Value)>)
    ensures r.Some? ==> HasPrefix(r.value.0, DaqPrefix)
  {
    var cols := TextSplit.Split(AfterMarker(line), ":");
    if |cols| == 2 then
      assert (DaqPrefix + cols[0])[..|DaqPrefix|] == DaqPrefix;
      Some((DaqPrefix + cols[0], ConfigValue(cols[1])))
    else None
  }

  /** The DAQCONFIG entries of the given history lines, stored in order (a later line wins). */
  function DaqConfig(lines: seq<string>): (m: map<string, Value>)
    ensures forall key :: key in m ==> HasPrefix(key, DaqPrefix)
    decreases |lines|
  {
    if lines == [] then map[]
    else
      var m := DaqConfig(lines[..|lines| - 1]);
      match HistoryEntry(lines[|lines| - 1])
      case None => m
      case Some(e) => m[e.0 := e.1]
  }

  /** The HEADER_ entries the first n cards store. */
  function HeaderEntries(h: seq<Card>, n: nat): (m: map<string, Value>)
    requires n <= |h|
    ensures forall key :: key in m ==> HasPrefix(key, HeaderPrefix)
    decreases n
  {
    if n == 0 then map[]
    else
      var m := HeaderEntries(h, n - 1);
      var k := h[n - 1].keyword;
      if k == HistoryKeyword then m
      else
        assert (HeaderPrefix + k)[..|HeaderPrefix|] == HeaderPrefix;
        assert Lookup(h, k).Some? by {
          assert h[n - 1].keyword == k;
        }
        m[HeaderPrefix + k := Lookup(h, k).value]
  }

  /** The dictionary setResultDictionary leaves behind, or the exception it raises. */
  function ResultOf(h: seq<Card>): Result<map<string, Value>, HeaderError> {
    match Texts(HistoryValues(h))
    case None => Failure(HistoryNotText)
    case Some(lines) =>
      match Lookup(h, "NAXIS2")
      case None => Failure(MissingNaxis2)
      case Some(v) =>
        match PyInt(v)
        case None => Failure(BadNaxis2)
        case Some(n) => WithRawRate(HeaderEntries(h, |h|) + DaqConfig(lines) + map[TotalCountsKey := Int(n)], v)
  }

  /** The last step: store RAW_RATE = float(NAXIS2) / float(m['HEADER_EXPOSURE']), or the exception it raises. */
  function WithRawRate(m: map<string, Value>, naxis2: Value): Result<map<string, Value>, HeaderError> {
    match PyFloat(naxis2)
    case None => Failure(NaxisNotFloat)
    case Some(c) =>
      if HeaderPrefix + ExposureKeyword !in m then Failure(MissingExposure)
      else
        match PyFloat(m[HeaderPrefix + ExposureKeyword])
        case None => Failure(BadExposure)
        case Some(x) => if x == 0.0 then Failure(ZeroExposure) else Success(m[RawRateKey := Float(c / x)])
  }

  // ----- history lines -----

  lemma MarkerHasNoBorder()
    ensures TextSplit.NoBorder(Marker)
  {
    forall d | 0 < d < |Marker|
      ensures Marker[d..] != Marker[..|Marker| - d]
    {
      assert Marker[..|Marker| - d][0] == 'Y';
      assert Marker[d..][0] == Marker[d];
    }
  }

  /** A line stores an entry exactly when the text after its last marker has one ':'. */
  lemma HistoryEntryIff(line: string)
    ensures HistoryEntry(line).Some? <==> TextSplit.Count(AfterMarker(line), ':') == 1
  {
    TextSplit.SplitCharFieldCount(AfterMarker(line), ':');
  }

  /** The entry of a line whose text after the last marker is name:field. */
  lemma HistoryEntryOfFields(line: string, name: string, field: string)
    requires AfterMarker(line) == name + ":" + field
    requires !TextSplit.Occurs(name, ":") && !TextSplit.Occurs(field, ":")
    ensures HistoryEntry(line) == Some((DaqPrefix + name, ConfigValue(field)))
  {
    TextSplit.SplitTwoFields(name, field, ':');
  }

  lemma NoMarkerAroundColon(a: string, b: string)
    requires !TextSplit.Occurs(a, Marker) && !TextSplit.Occurs(b, Marker)
    ensures !TextSplit.Occurs(a + ":" + b, Marker)
  {
    var s := a + ":" + b;
    forall i | 0 <= i <= |s|
      ensures !TextSplit.OccursAt(s, Marker, i)
    {
      if i + |Marker| <= |a| {
        assert s[i..i + |Marker|] == a[i..i + |Marker|];
        assert !TextSplit.OccursAt(a, Marker, i);
      } else if i <= |a| {
        if i + |Marker| <= |s| {
          assert s[i..i + |Marker|][|a| - i] == s[|a|] == ':';
          assert ':' !in Marker;
        }
      } else {
        var i' := i - |a| - 1;
        if i + |Marker| <= |s| {
          assert s[i..i + |Marker|] == b[i'..i' + |Marker|];
        }
        assert !TextSplit.OccursAt(b, Marker, i');
      }
    }
  }

  /** A YAML line name:field after any prefix stores DAQCONFIG_name, however many markers the prefix holds. */
  lemma YamlLineParsed(p: string, name: string, field: string)
    requires !TextSplit.Occurs(name, ":") && !TextSplit.Occurs(field, ":")
    requires !TextSplit.Occurs(name + ":" + field, Marker)
    ensures HistoryEntry(p + Marker + name + ":" + field) == Some((DaqPrefix + name, ConfigValue(field)))
  {
    var line := p + Marker + name + ":" + field;
    assert line == p + Marker + (name + ":" + field);
    MarkerHasNoBorder();
    TextSplit.LastFieldAfterSeparator(p, name + ":" + field, Marker);
    HistoryEntryOfFields(line, name, field);
  }

  /** The text yaml.dump writes after the ':' of an integer setting holds neither a ':' nor a marker. */
  lemma SpacedNumberIsPlain(n: int)
    ensures !TextSplit.Occurs(" " + IntText.Show(n), ":")
    ensures !TextSplit.Occurs(" " + IntText.Show(n), Marker)
  {
    var field := " " + IntText.Show(n);
    forall i | 0 <= i <= |field|
      ensures !TextSplit.OccursAt(field, ":", i) && !TextSplit.OccursAt(field, Marker, i)
    {
      if i < |field| {
        assert i == 0 || field[i] == IntText.Show(n)[i - 1];
        assert field[i] != ':' && field[i] != 'Y';
      }
      TextSplit.NotOccursAtOtherHead(field, ":", i);
      TextSplit.NotOccursAtOtherHead(field, Marker, i);
    }
  }

  lemma ConfigValueOfNumber(n: int)
    ensures ConfigValue(" " + IntText.Show(n)) == Int(n)
  {
    IntText.ParseShowRoundTrip(n, " ", "");
    assert " " + IntText.Show(n) + "" == " " + IntText.Show(n);
  }

  /** The line yaml.dump writes for an integer setting, "name: n", is stored as the int n. */
  lemma YamlIntLineParsed(p: string, name: string, n: int)
    requires !TextSplit.Occurs(name, ":") && !TextSplit.Occurs(name, Marker)
    ensures HistoryEntry(p + Marker + name + ": " + IntText.Show(n)) == Some((DaqPrefix + name, Int(n)))
  {
    var field := " " + IntText.Show(n);
    assert p + Marker + name + ": " + IntText.Show(n) == p + Marker + name + ":" + field;
    SpacedNumberIsPlain(n);
    NoMarkerAroundColon(name, field);
    YamlLineParsed(p, name, field);
    ConfigValueOfNumber(n);
  }

  /** A field int() cannot read because of a character foreign to integers is stored as text, spaces and all. */
  lemma ConfigValueFallsBackToText(field: string, k: nat)
    requires k < |field|
    requires !IntText.IsDigit(field[k]) && !IntText.IsSpace(field[k]) && field[k] != '-' && field[k] != '+'
    ensures ConfigValue(field) == Str(field)
  {
    IntText.ParseIntRejectsForeignChar(field, k);
  }

  // ----- the DAQCONFIG entries -----

  function EntryKey(line: string): Option<string> {
    match HistoryEntry(line)
    case None => None
    case Some(e) => Some(e.0)
  }

  /** Every stored DAQCONFIG key comes from some history line. */
  lemma {:induction false} DaqConfigKeysFromLines(lines: seq<string>, key: string)
    requires key in DaqConfig(lines)
    ensures exists j :: 0 <= j < |lines| && EntryKey(lines[j]) == Some(key)
    decreases |lines|
  {
    var n := |lines| - 1;
    var init := lines[..n];
    var m := DaqConfig(init);
    var e := HistoryEntry(lines[n]);
    assert DaqConfig(lines) == if e.Some? then m[e.value.0 := e.value.1] else m;
    if EntryKey(lines[n]) != Some(key) {
      assert key in m;
      DaqConfigKeysFromLines(init, key);
      var j :| 0 <= j < n && EntryKey(init[j]) == Some(key);
      assert lines[j] == init[j];
    }
  }

  /** Every history line that stores an entry leaves its key in the dictionary. */
  lemma {:induction false} DaqConfigKeysOfLines(lines: seq<string>, j: nat)
    requires j < |lines| && HistoryEntry(lines[j]).Some?
    ensures HistoryEntry(lines[j]).value.0 in DaqConfig(lines)
    decreases |lines|
  {
    var n := |lines| - 1;
    var init := lines[..n];
    var m := DaqConfig(init);
    var e := HistoryEntry(lines[n]);
    assert DaqConfig(lines) == if e.Some? then m[e.value.0 := e.value.1] else m;
    if j < n {
      assert init[j] == lines[j];
      DaqConfigKeysOfLines(init, j);
    }
  }

  /** The stored value is that of the last line storing the key: a later line overrides an earlier one. */
  lemma {:induction false} DaqConfigLastWins(lines: seq<string>, j: nat)
    requires j < |lines| && HistoryEntry(lines[j]).Some?
    requires forall j' :: j < j' < |lines| ==> EntryKey(lines[j']) != Some(HistoryEntry(lines[j]).value.0)
    ensures HistoryEntry(lines[j]).value.0 in DaqConfig(lines)
    ensures DaqConfig(lines)[HistoryEntry(lines[j]).value.0] == HistoryEntry(lines[j]).value.1
    decreases |lines|
  {
    var init := lines[..|lines| - 1];
    if j < |init| {
      assert init[j] == lines[j];
      forall j' | j < j' < |init|
        ensures EntryKey(init[j']) != Some(HistoryEntry(init[j]).value.0)
      {
        assert init[j'] == lines[j'];
      }
      DaqConfigLastWins(init, j);
      assert EntryKey(lines[|lines| - 1]) != Some(HistoryEntry(lines[j]).value.0);
    }
  }

  /** Storing the lines of a then those of b gives the entries of a, overridden by those of b. */
  lemma {:induction false} DaqConfigAppend(a: seq<string>, b: seq<string>)
    ensures DaqConfig(a + b) == DaqConfig(a) + DaqConfig(b)
    decreases |b|
  {
    if b != [] {
      var b' := b[..|b| - 1];
      assert (a + b)[..|a + b| - 1] == a + b';
      assert (a + b)[|a + b| - 1] == b[|b| - 1];
      DaqConfigAppend(a, b');
      match HistoryEntry(b[|b| - 1])
      case None =>
        assert DaqConfig(a + b) == DaqConfig(a + b');
        assert DaqConfig(b) == DaqConfig(b');
      case Some(e) =>
        assert DaqConfig(a + b) == DaqConfig(a + b')[e.0 := e.1];
        assert DaqConfig(b) == DaqConfig(b')[e.0 := e.1];
        UpdateAfterUnion(DaqConfig(a), DaqConfig(b'), e.0, e.1);
    } else {
      assert a + b == a;
    }
  }

  lemma {:induction false} HistoryValuesEmpty(h: seq<Card>)
    requires forall j :: 0 <= j < |h| ==> h[j].keyword != HistoryKeyword
    ensures HistoryValues(h) == []
    decreases |h|
  {
    if h != [] {
      HistoryValuesEmpty(h[..|h| - 1]);
    }
  }

  lemma DaqKeysStartWithD(lines: seq<string>)
    ensures forall key :: key in DaqConfig(lines) ==> key[0] == 'D'
  {
    forall key | key in DaqConfig(lines)
      ensures key[0] == 'D'
    {
      assert key[..|DaqPrefix|][0] == DaqPrefix[0];
    }
  }

  lemma DaqKeyIsNotHeaderKey(lines: seq<string>, k: string)
    ensures HeaderPrefix + k !in DaqConfig(lines)
  {
    DaqKeysStartWithD(lines);
    assert (HeaderPrefix + k)[0] == 'H';
  }

  lemma UpdateIsUnion<K, V>(a: map<K, V>, k: K, v: V)
    ensures a[k := v] == a + map[k := v]
  {
  }

  lemma UpdateAfterUnion<K, V>(a: map<K, V>, b: map<K, V>, k: K, v: V)
    ensures (a + b)[k := v] == a + b[k := v]
  {
  }

  lemma UpdateBeforeUnion<K, V>(a: map<K, V>, b: map<K, V>, k: K, v: V)
    requires k !in b
    ensures (a + b)[k := v] == a[k := v] + b
  {
  }

  lemma {:induction false} TextsPrefix(vs: seq<Value>, j: nat)
    requires j < |vs| && Texts(vs[..j]).Some? && vs[j].Str?
    ensures Texts(vs[..j + 1]) == Some(Texts(vs[..j]).value + [vs[j].s])
  {
    assert vs[..j + 1][..j] == vs[..j];
  }

  lemma HeaderEntriesStep(h: seq<Card>, i: nat)
    requires i < |h|
    ensures h[i].keyword == HistoryKeyword ==> HeaderEntries(h, i + 1) == HeaderEntries(h, i)
    ensures h[i].keyword != HistoryKeyword ==> Lookup(h, h[i].keyword).Some?
    ensures h[i].keyword != HistoryKeyword ==>
      HeaderEntries(h, i + 1) == HeaderEntries(h, i)[HeaderPrefix + h[i].keyword := Lookup(h, h[i].keyword).value]
  {
  }

  // ----- the whole dictionary -----

  lemma {:induction false} HistoryValuesMembers(h: seq<Card>, v: Value)
    ensures v in HistoryValues(h) <==> exists i :: 0 <= i < |h| && h[i].keyword == HistoryKeyword && h[i].value == v
    decreases |h|
  {
    if h != [] {
      var init := h[..|h| - 1];
      HistoryValuesMembers(init, v);
      if v in HistoryValues(init) {
        var i :| 0 <= i < |init| && init[i].keyword == HistoryKeyword && init[i].value == v;
        assert h[i] == init[i];
      }
      if exists i :: 0 <= i < |h| && h[i].keyword == HistoryKeyword && h[i].value == v {
        var i :| 0 <= i < |h| && h[i].keyword == HistoryKeyword && h[i].value == v;
        if i < |init| {
          assert init[i] == h[i];
        }
      }
    }
  }

  /** HEADER_k is stored by the first n cards exactly when one of them has keyword k and k is not HISTORY. */
  lemma {:induction false} HeaderEntriesKeys(h: seq<Card>, n: nat, k: string)
    requires n <= |h|
    ensures HeaderPrefix + k in HeaderEntries(h, n) <==>
      k != HistoryKeyword && exists i :: 0 <= i < n && h[i].keyword == k
    ensures HeaderPrefix + k in HeaderEntries(h, n) ==> Lookup(h, k).Some? && HeaderEntries(h, n)[HeaderPrefix + k] == Lookup(h, k).value
    decreases n
  {
    if n > 0 {
      HeaderEntriesKeys(h, n - 1, k);
      var k' := h[n - 1].keyword;
      assert (HeaderPrefix + k')[|HeaderPrefix|..] == k';
      assert (HeaderPrefix + k)[|HeaderPrefix|..] == k;
    }
  }

  /** The dictionary as it stands before RAW_RATE is computed. */
  function Counted(h: seq<Card>, lines: seq<string>, n: int): map<string, Value> {
    HeaderEntries(h, |h|) + DaqConfig(lines) + map[TotalCountsKey := Int(n)]
  }

  /** result['HEADER_EXPOSURE'] at line 80 is header['EXPOSURE']. */
  lemma ExposureEntry(h: seq<Card>, lines: seq<string>, n: int)
    ensures HeaderPrefix + ExposureKeyword in Counted(h, lines, n) <==> Lookup(h, ExposureKeyword).Some?
    ensures HeaderPrefix + ExposureKeyword in Counted(h, lines, n) ==>
      Counted(h, lines, n)[HeaderPrefix + ExposureKeyword] == Lookup(h, ExposureKeyword).value
  {
    HeaderEntriesKeys(h, |h|, ExposureKeyword);
    DaqKeyIsNotHeaderKey(lines, ExposureKeyword);
    assert (HeaderPrefix + ExposureKeyword)[0] != TotalCountsKey[0];
  }

  /** How ResultOf ends once the HISTORY lines and NAXIS2 have been read. */
  lemma ResultIsRated(h: seq<Card>)
    requires Texts(HistoryValues(h)).Some? && Lookup(h, "NAXIS2").Some? && PyInt(Lookup(h, "NAXIS2").value).Some?
    ensures ResultOf(h) == WithRawRate(
      Counted(h, Texts(HistoryValues(h)).value, PyInt(Lookup(h, "NAXIS2").value).value),
      Lookup(h, "NAXIS2").value)
  {
  }

  /** RAW_RATE is added to m and nothing else changes. */
  lemma RatedEntries(m: map<string, Value>, naxis2: Value)
    requires WithRawRate(m, naxis2).Success?
    ensures WithRawRate(m, naxis2).value.Keys == m.Keys + {RawRateKey}
    ensures forall k :: k in m && k != RawRateKey ==> WithRawRate(m, naxis2).value[k] == m[k]
  {
  }

  lemma CountedKeysNamespaced(h: seq<Card>, lines: seq<string>, n: int)
    ensures forall key :: key in Counted(h, lines, n) ==>
      HasPrefix(key, HeaderPrefix) || HasPrefix(key, DaqPrefix) || key == TotalCountsKey
    ensures HeaderPrefix + HistoryKeyword !in Counted(h, lines, n)
  {
    HeaderEntriesKeys(h, |h|, HistoryKeyword);
    DaqKeyIsNotHeaderKey(lines, HistoryKeyword);
    assert (HeaderPrefix + HistoryKeyword)[0] != TotalCountsKey[0];
  }

  /** Every stored key lies in one of the four namespaces, and HEADER_HISTORY is never stored. */
  lemma ResultKeysNamespaced(h: seq<Card>)
    requires ResultOf(h).Success?
    ensures forall key :: key in ResultOf(h).value ==>
      HasPrefix(key, HeaderPrefix) || HasPrefix(key, DaqPrefix) || key == TotalCountsKey || key == RawRateKey
    ensures HeaderPrefix + HistoryKeyword !in ResultOf(h).value
  {
    var lines := Texts(HistoryValues(h)).value;
    var v := Lookup(h, "NAXIS2").value;
    ResultIsRated(h);
    RatedEntries(Counted(h, lines, PyInt(v).value), v);
    CountedKeysNamespaced(h, lines, PyInt(v).value);
    assert (HeaderPrefix + HistoryKeyword)[0] != RawRateKey[0];
  }

  lemma CountedHeaderKey(h: seq<Card>, lines: seq<string>, n: int, k: string)
    ensures HeaderPrefix + k in Counted(h, lines, n) <==>
      k != HistoryKeyword && exists i :: 0 <= i < |h| && h[i].keyword == k
    ensures HeaderPrefix + k in Counted(h, lines, n) ==>
      Lookup(h, k).Some? && Counted(h, lines, n)[HeaderPrefix + k] == Lookup(h, k).value
  {
    HeaderEntriesKeys(h, |h|, k);
    DaqKeyIsNotHeaderKey(lines, k);
    assert (HeaderPrefix + k)[0] != TotalCountsKey[0];
  }

  /** Every keyword k other than HISTORY in the header, and only those, is stored as HEADER_k with header[k]. */
  lemma ResultHeaderKeys(h: seq<Card>, k: string)
    requires ResultOf(h).Success?
    ensures HeaderPrefix + k in ResultOf(h).value <==>
      k != HistoryKeyword && exists i :: 0 <= i < |h| && h[i].keyword == k
    ensures HeaderPrefix + k in ResultOf(h).value ==>
      Lookup(h, k).Some? && ResultOf(h).value[HeaderPrefix + k] == Lookup(h, k).value
  {
    var lines := Texts(HistoryValues(h)).value;
    var v := Lookup(h, "NAXIS2").value;
    ResultIsRated(h);
    RatedEntries(Counted(h, lines, PyInt(v).value), v);
    CountedHeaderKey(h, lines, PyInt(v).value, k);
    assert (HeaderPrefix + k)[0] != RawRateKey[0];
  }

  lemma CountedDaqKey(h: seq<Card>, lines: seq<string>, n: int, key: string)
    requires HasPrefix(key, DaqPrefix)
    ensures key in Counted(h, lines, n) <==> key in DaqConfig(lines)
    ensures key in Counted(h, lines, n) ==> Counted(h, lines, n)[key] == DaqConfig(lines)[key]
  {
    assert key[0] == 'D' by {
      assert key[..|DaqPrefix|][0] == DaqPrefix[0];
    }
    HeaderKeysStartWithH(h, |h|);
    assert key !in HeaderEntries(h, |h|);
    assert key != TotalCountsKey;
  }

  /** The DAQCONFIG_ keys of the dictionary are exactly those the HISTORY lines store, with the same values. */
  lemma ResultDaqKeys(h: seq<Card>, key: string)
    requires ResultOf(h).Success?
    requires HasPrefix(key, DaqPrefix)
    ensures key in ResultOf(h).value <==> key in DaqConfig(Texts(HistoryValues(h)).value)
    ensures key in ResultOf(h).value ==> ResultOf(h).value[key] == DaqConfig(Texts(HistoryValues(h)).value)[key]
  {
    var lines := Texts(HistoryValues(h)).value;
    var v := Lookup(h, "NAXIS2").value;
    ResultIsRated(h);
    RatedEntries(Counted(h, lines, PyInt(v).value), v);
    CountedDaqKey(h, lines, PyInt(v).value, key);
    assert key != RawRateKey;
  }

  lemma HeaderKeysStartWithH(h: seq<Card>, n: nat)
    requires n <= |h|
    ensures forall key :: key in HeaderEntries(h, n) ==> key[0] == 'H'
  {
    forall key | key in HeaderEntries(h, n)
      ensures key[0] == 'H'
    {
      assert key[..|HeaderPrefix|][0] == HeaderPrefix[0];
    }
  }

  /** TOTAL_COUNTS is int(header['NAXIS2']). */
  lemma ResultTotalCounts(h: seq<Card>)
    requires ResultOf(h).Success?
    ensures Lookup(h, "NAXIS2").Some? && PyInt(Lookup(h, "NAXIS2").value).Some?
    ensures ResultOf(h).value[TotalCountsKey] == Int(PyInt(Lookup(h, "NAXIS2").value).value)
  {
    assert TotalCountsKey != RawRateKey;
  }

  /** RAW_RATE is float(header['NAXIS2']) / float(header['EXPOSURE']), and EXPOSURE reads as a nonzero number. */
  lemma ResultRawRate(h: seq<Card>)
    requires ResultOf(h).Success?
    ensures Lookup(h, "NAXIS2").Some? && PyFloat(Lookup(h, "NAXIS2").value).Some?
    ensures Lookup(h, ExposureKeyword).Some? && PyFloat(Lookup(h, ExposureKeyword).value).Some?
    ensures PyFloat(Lookup(h, ExposureKeyword).value).value != 0.0
    ensures ResultOf(h).value[RawRateKey] ==
      Float(PyFloat(Lookup(h, "NAXIS2").value).value / PyFloat(Lookup(h, ExposureKeyword).value).value)
  {
    var lines := Texts(HistoryValues(h)).value;
    var n := PyInt(Lookup(h, "NAXIS2").value).value;
    ResultIsRated(h);
    ExposureEntry(h, lines, n);
  }

  /** When the dictionary is built, and which exception is raised otherwise. */
  lemma ResultFailures(h: seq<Card>)
    ensures ResultOf(h) == Failure(HistoryNotText) <==>
      exists i :: 0 <= i < |h| && h[i].keyword == HistoryKeyword && !h[i].value.Str?
    ensures ResultOf(h) == Failure(MissingNaxis2) ==> Lookup(h, "NAXIS2").None?
    ensures ResultOf(h) == Failure(BadNaxis2) ==> Lookup(h, "NAXIS2").Some? && PyInt(Lookup(h, "NAXIS2").value).None?
  {
    var vs := HistoryValues(h);
    if exists i :: 0 <= i < |h| && h[i].keyword == HistoryKeyword && !h[i].value.Str? {
      var i :| 0 <= i < |h| && h[i].keyword == HistoryKeyword && !h[i].value.Str?;
      HistoryValuesMembers(h, h[i].value);
      var j :| 0 <= j < |vs| && vs[j] == h[i].value;
    }
    if Texts(vs).None? {
      var j :| 0 <= j < |vs| && !vs[j].Str?;
      HistoryValuesMembers(h, vs[j]);
    }
  }

  /** The exceptions of the RAW_RATE line: each is raised only on its own cause. */
  lemma ResultRateFailures(h: seq<Card>)
    ensures ResultOf(h) == Failure(NaxisNotFloat) ==>
      Lookup(h, "NAXIS2").Some? && PyInt(Lookup(h, "NAXIS2").value).Some? && PyFloat(Lookup(h, "NAXIS2").value).None?
    ensures ResultOf(h) == Failure(MissingExposure) ==> Lookup(h, ExposureKeyword).None?
    ensures ResultOf(h) == Failure(BadExposure) ==>
      Lookup(h, ExposureKeyword).Some? && PyFloat(Lookup(h, ExposureKeyword).value).None?
    ensures ResultOf(h) == Failure(ZeroExposure) ==>
      Lookup(h, ExposureKeyword).Some? && PyFloat(Lookup(h, ExposureKeyword).value) == Some(0.0)
  {
    if Texts(HistoryValues(h)).Some? && Lookup(h, "NAXIS2").Some? && PyInt(Lookup(h, "NAXIS2").value).Some? {
      ResultIsRated(h);
      ExposureEntry(h, Texts(HistoryValues(h)).value, PyInt(Lookup(h, "NAXIS2").value).value);
    }
  }

  /** The dictionary is built exactly when none of the exceptions' causes is present. */
  lemma ResultSucceeds(h: seq<Card>)
    ensures ResultOf(h).Success? <==>
      (forall i :: 0 <= i < |h| && h[i].keyword == HistoryKeyword ==> h[i].value.Str?)
      && Lookup(h, "NAXIS2").Some? && PyInt(Lookup(h, "NAXIS2").value).Some?
      && PyFloat(Lookup(h, "NAXIS2").value).Some?
      && Lookup(h, ExposureKeyword).Some? && PyFloat(Lookup(h, ExposureKeyword).value).Some?
      && PyFloat(Lookup(h, ExposureKeyword).value).value != 0.0
  {
    ResultFailures(h);
    if Texts(HistoryValues(h)).Some? && Lookup(h, "NAXIS2").Some? && PyInt(Lookup(h, "NAXIS2").value).Some? {
      ResultIsRated(h);
      ExposureEntry(h, Texts(HistoryValues(h)).value, PyInt(Lookup(h, "NAXIS2").value).value);
    }
  }

  /** A header whose EXPOSURE is 0 makes the RAW_RATE line raise ZeroDivisionError. */
  lemma ZeroExposureRaises()
    ensures ResultOf([Card("NAXIS2", Int(3)), Card(ExposureKeyword, Float(0.0))]) == Failure(ZeroExposure)
  {
    var h := [Card("NAXIS2", Int(3)), Card(ExposureKeyword, Float(0.0))];
    assert h[0].keyword != HistoryKeyword && h[1].keyword != HistoryKeyword;
    HistoryValuesEmpty(h);
    assert FirstIndex(h, "NAXIS2") == Some(0);
    assert FirstIndex(h, ExposureKeyword) == Some(1) by {
      assert h[0].keyword != ExposureKeyword;
    }
    ResultIsRated(h);
    ExposureEntry(h, [], 3);
  }

  /**
    The inner loop of setResultDictionary: store the DAQCONFIG entry of every
    history line into result, or fail at the first value that is not a str.
  */
  method StoreHistory(result0: map<string, Value>, lines: seq<Value>) returns (r: Result<map<string, Value>, HeaderError>)
    ensures r.Failure? <==> Texts(lines).None?
    ensures r.Failure? ==> r.error == HistoryNotText
    ensures r.Success? ==> r.value == result0 + DaqConfig(Texts(lines).value)
  {
    var result := result0;
    var j := 0;
    while j < |lines|
      invariant 0 <= j <= |lines|
      invariant Texts(lines[..j]).Some?
      invariant result == result0 + DaqConfig(Texts(lines[..j]).value)
    {
      var line := lines[j];
      if !line.Str? {
        return Failure(HistoryNotText);
      }
      TextsPrefix(lines, j);
      var texts := Texts(lines[..j]).value;
      assert (texts + [line.s])[..|texts|] == texts;
      var entry := HistoryEntry(line.s);
      if entry.Some? {
        UpdateAfterUnion(result0, DaqConfig(texts), entry.value.0, entry.value.1);
        result := result[entry.value.0 := entry.value.1];
      }
      j := j + 1;
    }
    assert lines[..j] == lines;
    return Success(result);
  }

  /** setResultDictionary, over a header given as its sequence of cards. */
  method SetResultDictionary(header: seq<Card>) returns (r: Result<map<string, Value>, HeaderError>)
    ensures r == ResultOf(header)
  {
    var result: map<string, Value> := map[];
    var historyFlag := true;
    var i := 0;
    while i < |header|
      invariant 0 <= i <= |header|
      invariant historyFlag <==> forall j :: 0 <= j < i ==> header[j].keyword != HistoryKeyword
      invariant historyFlag ==> result == HeaderEntries(header, i)
      invariant !historyFlag ==> Texts(HistoryValues(header)).Some?
      invariant !historyFlag ==> result == HeaderEntries(header, i) + DaqConfig(Texts(HistoryValues(header)).value)
    {
      var keyword := header[i].keyword;
      HeaderEntriesStep(header, i);
      if keyword == HistoryKeyword {
        if historyFlag {
          var stored := StoreHistory(result, HistoryValues(header));
          if stored.Failure? {
            return stored;
          }
          result := stored.value;
        }
        historyFlag := false;
      } else {
        var value := Lookup(header, keyword).value;
        if !historyFlag {
          var texts := Texts(HistoryValues(header)).value;
          DaqKeyIsNotHeaderKey(texts, keyword);
          UpdateBeforeUnion(HeaderEntries(header, i), DaqConfig(texts), HeaderPrefix + keyword, value);
        }
        result := result[HeaderPrefix + keyword := value];
      }
      i := i + 1;
    }
    if historyFlag {
      HistoryValuesEmpty(header);
      assert Texts(HistoryValues(header)) == Some([]);
      assert result == HeaderEntries(header, |header|) + DaqConfig([]);
    }
    var naxis2 := Lookup(header, "NAXIS2");
    if naxis2.None? {
      return Failure(MissingNaxis2);
    }
    var totalCounts := PyInt(naxis2.value);
    if totalCounts.None? {
      return Failure(BadNaxis2);
    }
    UpdateIsUnion(result, TotalCountsKey, Int(totalCounts.value));
    result := result[TotalCountsKey := Int(totalCounts.value)];
    var counts := PyFloat(naxis2.value);
    if counts.None? {
      return Failure(NaxisNotFloat);
    }
    if HeaderPrefix + ExposureKeyword !in result {
      return Failure(MissingExposure);
    }
    var exposure := PyFloat(result[HeaderPrefix + ExposureKeyword]);
    if exposure.None? {
      return Failure(BadExposure);
    }
    if exposure.value == 0.0 {
      return Failure(ZeroExposure);
    }
    result := result[RawRateKey := Float(counts.value / exposure.value)];
    return Success(result);
  }
}
