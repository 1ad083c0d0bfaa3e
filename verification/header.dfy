/**
 `makeHeader`: turning the collected `-H` values into the handshake's HTTP
 header. Each value is split at its first colon and both halves are trimmed;
 the resulting fields are added, in order, to a multimap from canonical name
 to the list of values given for it.
 */
module Header {
  import opened Base
  import opened Text
  import opened HeaderFlag

  /** One header line before canonicalisation. */
  datatype Field = Field(name: string, value: string)

  /**
   The `splits[1]` index-out-of-range panic: the entry at `index` has no colon.
   Go aborts the whole process with it.
   */
  datatype HeaderError = MissingColon(index: nat, entry: string)

  /**
   One `-H` value: name and value are the trimmed halves around the first
   colon; no colon means there is no second half to take.
   */
  function ParseEntry(entry: string): (r: Option<Field>)
    ensures r.None? <==> ':' !in entry
  {
    var splits := SplitFirst(entry, ':');
    if |splits| < 2 then None
    else Some(Field(TrimSpace(splits[0]), TrimSpace(splits[1])))
  }

  /** A parsed name has no colon, and neither name nor value starts or ends with white space. */
  lemma ParseEntryShape(entry: string)
    ensures ParseEntry(entry).Some? ==> && ':' !in ParseEntry(entry).value.name
                                        && Trimmed(ParseEntry(entry).value.name)
                                        && Trimmed(ParseEntry(entry).value.value)
  {
    var parts := SplitFirst(entry, ':');
    SplitFirstJoins(entry, ':');
    if |parts| == 2 {
      TrimSpaceKeeps(parts[0], ':');
      var _, _ := TrimSpaceSlice(parts[0]);
      var _, _ := TrimSpaceSlice(parts[1]);
    }
  }

  /**
   Every entry with a colon has this form: the part before the first colon is
   the name, everything after it, later colons included, is the value.
   */
  lemma ParseEntryOf(rawName: string, rawValue: string)
    requires ':' !in rawName
    ensures ParseEntry(rawName + ":" + rawValue) == Some(Field(TrimSpace(rawName), TrimSpace(rawValue)))
  {
    SplitFirstOf(rawName, ':', rawValue);
  }

  /** `"A: b:c"` gives the name `A` and the value `b:c`. */
  lemma ParseEntryLaterColons()
    ensures ParseEntry("A: b:c") == Some(Field("A", "b:c"))
  {
    var name, value := "A", " b:c";
    assert "A: b:c" == name + ":" + value;
    ParseEntryOf(name, value);
    TrimExample(name, value);
  }

  /** The two trims `ParseEntryLaterColons` needs: `"A"` is already trimmed, and `" b:c"` loses its leading blank. */
  lemma TrimExample(name: string, value: string)
    requires name == "A" && value == " b:c"
    ensures TrimSpace(name) == "A" && TrimSpace(value) == "b:c"
  {
    assert name == "" + name + "";
    TrimSpaceUnique(name, "", name, "");
    assert value == " " + "b:c" + "";
    TrimSpaceUnique(value, " ", "b:c", "");
  }

  /**
   `makeHeader` before the fields reach the multimap: one field per entry, in
   entry order, or the panic at the first entry that has no colon. The loop
   is unrolled from its last iteration, so the entries before the last are
   handled first, as in `makeHeader`'s loop.
   */
  function MakeHeader(h: Headers): (r: Result<seq<Field>, HeaderError>)
    ensures r.Ok? ==> |r.value| == |h.entries|
    ensures r.Ok? ==> forall i | 0 <= i < |h.entries| :: ParseEntry(h.entries[i]) == Some(r.value[i])
    ensures r.Err? ==> && r.error.index < |h.entries|
                       && r.error.entry == h.entries[r.error.index]
                       && ParseEntry(r.error.entry) == None
                       && forall j | 0 <= j < r.error.index :: ParseEntry(h.entries[j]).Some?
    decreases |h.entries|
  {
    if |h.entries| == 0 then Ok([])
    else
      var n := |h.entries| - 1;
      var sofar := MakeHeader(Headers(h.entries[..n]));
      if sofar.Err? then sofar
      else
        var p := ParseEntry(h.entries[n]);
        if p.None? then Err(MissingColon(n, h.entries[n]))
        else Ok(sofar.value + [p.value])
  }

  /** The header is built exactly when every entry has a colon; otherwise the first entry without one is reported. */
  lemma MakeHeaderNeedsColons(h: Headers)
    ensures MakeHeader(h).Ok? <==> forall i | 0 <= i < |h.entries| :: ':' in h.entries[i]
    ensures MakeHeader(h).Err? ==> && ':' !in MakeHeader(h).error.entry
                                   && forall j | 0 <= j < MakeHeader(h).error.index :: ':' in h.entries[j]
  {
    var r := MakeHeader(h);
    if r.Err? {
      assert ':' !in h.entries[r.error.index];
    }
  }

  /** When every entry parses, the header is exactly the parsed fields, in entry order. */
  lemma MakeHeaderOk(h: Headers, fields: seq<Field>)
    requires |fields| == |h.entries|
    requires forall i | 0 <= i < |h.entries| :: ParseEntry(h.entries[i]) == Some(fields[i])
    ensures MakeHeader(h) == Ok(fields)
  {
    var r := MakeHeader(h);
    assert forall i | 0 <= i < |h.entries| :: ParseEntry(h.entries[i]).Some?;
    assert r.value == fields;
  }

  /**
   Flags written as `name:value`, with no colon in the name, become exactly
   the trimmed pairs, in the order given and with repeated names kept.
   */
  lemma FlagsBecomeFields(names: seq<string>, values: seq<string>)
    requires |names| == |values|
    requires forall i | 0 <= i < |names| :: ':' !in names[i]
    ensures var raw := seq(|names|, i requires 0 <= i < |names| => names[i] + ":" + values[i]);
            MakeHeader(SetAll(Headers([]), raw))
            == Ok(seq(|names|, i requires 0 <= i < |names| => Field(TrimSpace(names[i]), TrimSpace(values[i]))))
  {
    var raw := seq(|names|, i requires 0 <= i < |names| => names[i] + ":" + values[i]);
    var fields := seq(|names|, i requires 0 <= i < |names| => Field(TrimSpace(names[i]), TrimSpace(values[i])));
    assert SetAll(Headers([]), raw) == Headers(raw) by {
      SetAllAppends(Headers([]), raw);
    }
    forall i | 0 <= i < |raw| ensures ParseEntry(raw[i]) == Some(fields[i]) {
      ParseEntryOf(names[i], values[i]);
    }
    MakeHeaderOk(Headers(raw), fields);
  }

  /** The handshake header: canonical name to the values given for it, in order. */
  type HeaderMap = map<string, seq<string>>

  /** `http.Header.Add`, with the library's name canonicalisation as the parameter `canon`. */
  function Add(m: HeaderMap, canon: string -> string, f: Field): (r: HeaderMap)
    ensures canon(f.name) in r && r[canon(f.name)] == (if canon(f.name) in m then m[canon(f.name)] else []) + [f.value]
    ensures r.Keys == m.Keys + {canon(f.name)}
    ensures forall k | k in m && k != canon(f.name) :: r[k] == m[k]
  {
    var k := canon(f.name);
    m[k := (if k in m then m[k] else []) + [f.value]]
  }

  /** The loop of `makeHeader`: add the fields one after another. */
  function ToMap(fields: seq<Field>, canon: string -> string): (r: HeaderMap)
    ensures forall i | 0 <= i < |fields| :: canon(fields[i].name) in r
    ensures forall k | k in r :: r[k] != []
    decreases |fields|
  {
    if |fields| == 0 then map[]
    else Add(ToMap(fields[..|fields| - 1], canon), canon, fields[|fields| - 1])
  }

  /** Reference definition: the values of the fields whose canonical name is `k`, in field order. */
  function ValuesFor(fields: seq<Field>, canon: string -> string, k: string): seq<string>
    decreases |fields|
  {
    if |fields| == 0 then []
    else (if canon(fields[0].name) == k then [fields[0].value] else []) + ValuesFor(fields[1..], canon, k)
  }

  lemma {:induction false} ValuesForSnoc(fields: seq<Field>, f: Field, canon: string -> string, k: string)
    ensures ValuesFor(fields + [f], canon, k)
            == ValuesFor(fields, canon, k) + (if canon(f.name) == k then [f.value] else [])
    decreases |fields|
  {
    if |fields| > 0 {
      assert (fields + [f])[1..] == fields[1..] + [f];
      ValuesForSnoc(fields[1..], f, canon, k);
    }
  }

  /**
   The multimap holds a name exactly when some field has it, and then lists
   every value given for it, duplicates included, in the order supplied.
   */
  lemma {:induction false} ToMapValues(fields: seq<Field>, canon: string -> string, k: string)
    ensures k in ToMap(fields, canon) <==> ValuesFor(fields, canon, k) != []
    ensures k in ToMap(fields, canon) ==> ToMap(fields, canon)[k] == ValuesFor(fields, canon, k)
    decreases |fields|
  {
    if |fields| > 0 {
      var init := fields[..|fields| - 1];
      var last := fields[|fields| - 1];
      assert fields == init + [last];
      ToMapValues(init, canon, k);
      ValuesForSnoc(init, last, canon, k);
    }
  }
}
