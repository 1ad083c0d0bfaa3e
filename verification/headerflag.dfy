/**
 The repeatable `-H` command-line flag: a `flag.Value` that collects every
 occurrence, in the order given, as a raw `"Name: Value"` string.
 */
module HeaderFlag {
  import opened Base
  import opened Text

  /** The error a `flag.Value.Set` may report; this flag never reports one. */
  datatype FlagError = FlagError(message: string)

  /** The `headers` slice: raw flag values in command-line order. */
  datatype Headers = Headers(entries: seq<string>)

  /**
   `headers.Set`: the new value goes at the end, every earlier entry keeps
   its place and content, and no error is ever reported.
   */
  function Set(h: Headers, value: string): (r: (Headers, Option<FlagError>))
    ensures |r.0.entries| == |h.entries| + 1
    ensures r.0.entries[|h.entries|] == value
    ensures forall i | 0 <= i < |h.entries| :: r.0.entries[i] == h.entries[i]
    ensures r.1 == None
  {
    (Headers(h.entries + [value]), None)
  }

  /** `headers.String`: the entries joined with `", "`. */
  function String(h: Headers): string
  {
    Join(h.entries, ListSep)
  }

  /** The flag package calling `Set` once per occurrence, left to right. */
  function SetAll(h: Headers, values: seq<string>): Headers
    decreases |values|
  {
    if |values| == 0 then h else SetAll(Set(h, values[0]).0, values[1..])
  }

  /** Occurrences accumulate after the existing entries, in order, duplicates included. */
  lemma {:induction false} SetAllAppends(h: Headers, values: seq<string>)
    ensures SetAll(h, values).entries == h.entries + values
    decreases |values|
  {
    if |values| > 0 {
      SetAllAppends(Set(h, values[0]).0, values[1..]);
      assert h.entries + [values[0]] + values[1..] == h.entries + values;
    }
  }

  /** Each `Set` extends the rendered list by `", "` and the new value. */
  lemma StringAfterSet(h: Headers, value: string)
    ensures String(Set(h, value).0) ==
            if |h.entries| == 0 then value else String(h) + ListSep + value
  {
    if |h.entries| > 0 {
      JoinSnoc(h.entries, value, ListSep);
    }
  }

  /**
   The rendered list can be cut back into the entries at `", "` when no entry
   contains `", "` itself.
   */
  lemma StringSplits(h: Headers)
    requires |h.entries| > 0
    requires forall i | 0 <= i < |h.entries| :: FindSep(h.entries[i]) < 0
    ensures SplitList(String(h)) == h.entries
  {
    SplitJoin(h.entries);
  }
}
