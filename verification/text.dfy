/**
 The string operations of Go's `strings` package that the client relies on:
 `TrimSpace`, `SplitN(s, sep, 2)` with a one-character separator, and `Join`.
 A Go string is modelled as its sequence of runes.
 */
module Text {

  /** Go's `unicode.IsSpace`: the Latin-1 spaces plus the Unicode White_Space runes above Latin-1. */
  predicate IsSpace(c: char) {
    var x := c as int;
    || (9 <= x <= 13)
    || x == 0x20 || x == 0x85 || x == 0xA0
    || x == 0x1680
    || (0x2000 <= x <= 0x200A)
    || x == 0x2028 || x == 0x2029 || x == 0x202F || x == 0x205F
    || x == 0x3000
  }

  predicate AllSpace(s: string) {
    forall i | 0 <= i < |s| :: IsSpace(s[i])
  }

  /** Neither end of `s` is white space. */
  predicate Trimmed(s: string) {
    |s| == 0 || (!IsSpace(s[0]) && !IsSpace(s[|s| - 1]))
  }

  /**
   Go's `strings.TrimSpace`: drop white space from both ends. Go trims the
   front first and then the back; which end goes first does not change the
   result (see `TrimSpaceUnique`).
   */
  function TrimSpace(s: string): (r: string)
    ensures |r| <= |s|
    decreases |s|
  {
    if |s| > 0 && IsSpace(s[0]) then TrimSpace(s[1..])
    else if |s| > 0 && IsSpace(s[|s| - 1]) then TrimSpace(s[..|s| - 1])
    else s
  }

  /**
   `TrimSpace` keeps one contiguous piece of its input, untouched, with
   neither end white space, and everything it drops is white space.
   */
  lemma {:induction false} TrimSpaceSlice(s: string) returns (i: nat, j: nat)
    ensures i <= j <= |s|
    ensures TrimSpace(s) == s[i..j]
    ensures AllSpace(s[..i]) && AllSpace(s[j..])
    ensures Trimmed(TrimSpace(s))
    decreases |s|
  {
    if |s| > 0 && IsSpace(s[0]) {
      var rest := s[1..];
      var i', j' := TrimSpaceSlice(rest);
      i, j := i' + 1, j' + 1;
      assert TrimSpace(s) == TrimSpace(rest);
      assert rest[i'..j'] == s[i..j];
      assert AllSpace(s[..i]) by {
        forall k | 0 <= k < i ensures IsSpace(s[..i][k]) {
          if k > 0 {
            assert s[..i][k] == rest[..i'][k - 1];
          }
        }
      }
      assert s[j..] == rest[j'..];
    } else if |s| > 0 && IsSpace(s[|s| - 1]) {
      var init := s[..|s| - 1];
      i, j := TrimSpaceSlice(init);
      assert TrimSpace(s) == TrimSpace(init);
      assert init[i..j] == s[i..j];
      assert s[..i] == init[..i];
      assert AllSpace(s[j..]) by {
        forall k | 0 <= k < |s| - j ensures IsSpace(s[j..][k]) {
          if k < |s| - 1 - j {
            assert s[j..][k] == init[j..][k];
          }
        }
      }
    } else {
      i, j := 0, |s|;
      assert s[i..j] == s;
    }
  }

  /** Trimming never introduces a rune the input did not have. */
  lemma TrimSpaceKeeps(s: string, c: char)
    requires c !in s
    ensures c !in TrimSpace(s)
  {
    var i, j := TrimSpaceSlice(s);
    forall k | 0 <= k < j - i ensures s[i..j][k] != c {
      assert s[i..j][k] == s[i + k];
    }
  }

  /**
   Any way of writing `s` as white space, a trimmed core and white space
   yields that core: the result of `TrimSpace` is the unique such core.
   */
  lemma {:induction false} TrimSpaceUnique(s: string, p: string, t: string, q: string)
    requires s == p + t + q
    requires AllSpace(p) && AllSpace(q) && Trimmed(t)
    ensures TrimSpace(s) == t
    decreases |s|
  {
    if |p| > 0 {
      assert s[0] == p[0];
      assert s[1..] == p[1..] + t + q;
      TrimSpaceUnique(s[1..], p[1..], t, q);
    } else if |t| > 0 {
      assert s[0] == t[0];
      if |q| > 0 {
        assert s[|s| - 1] == q[|q| - 1];
        assert s[..|s| - 1] == p + t + q[..|q| - 1];
        TrimSpaceUnique(s[..|s| - 1], p, t, q[..|q| - 1]);
      } else {
        assert s == t;
      }
    } else if |q| > 0 {
      assert s == q;
      assert s[1..] == p + t + q[1..];
      TrimSpaceUnique(s[1..], p, t, q[1..]);
    }
  }

  /** Trimming twice is the same as trimming once. */
  lemma TrimSpaceIdempotent(s: string)
    ensures TrimSpace(TrimSpace(s)) == TrimSpace(s)
  {
    var t := TrimSpace(s);
    var _, _ := TrimSpaceSlice(s);
    assert t == "" + t + "";
    TrimSpaceUnique(t, "", t, "");
  }

  /** Index of the first occurrence of `c` in `s`, or -1 as a rune index (the position `strings.Index` finds, which `SplitN` uses, counted in runes rather than bytes). */
  function IndexOf(s: string, c: char): (r: int)
    ensures -1 <= r < |s|
    ensures r == -1 <==> c !in s
    ensures 0 <= r ==> s[r] == c && c !in s[..r]
  {
    if |s| == 0 then -1
    else if s[0] == c then 0
    else
      var j := IndexOf(s[1..], c);
      assert s == [s[0]] + s[1..];
      if j < 0 then -1
      else
        assert s[..j + 1] == [s[0]] + s[1..][..j];
        j + 1
  }

  /**
   Go's `strings.SplitN(s, sep, 2)` for a one-rune separator: the whole string
   when `sep` does not occur, otherwise the parts before and after its first
   occurrence.
   */
  function SplitFirst(s: string, sep: char): (r: seq<string>)
    ensures 1 <= |r| <= 2
    ensures |r| == 1 <==> sep !in s
  {
    var i := IndexOf(s, sep);
    if i < 0 then [s] else [s[..i], s[i + 1..]]
  }

  /**
   The parts of a split are the string itself when `sep` is absent, and
   otherwise a `sep`-free head and a tail that rejoin around `sep`.
   */
  lemma SplitFirstJoins(s: string, sep: char)
    ensures |SplitFirst(s, sep)| == 1 ==> SplitFirst(s, sep)[0] == s
    ensures |SplitFirst(s, sep)| == 2 ==> && SplitFirst(s, sep)[0] + [sep] + SplitFirst(s, sep)[1] == s
                                          && sep !in SplitFirst(s, sep)[0]
  {
    var i := IndexOf(s, sep);
    if i >= 0 {
      assert s == s[..i] + [sep] + s[i + 1..];
    }
  }

  /** The split is determined by the separator-free head: later separators stay in the tail. */
  lemma SplitFirstOf(head: string, sep: char, tail: string)
    requires sep !in head
    ensures SplitFirst(head + [sep] + tail, sep) == [head, tail]
  {
    var s := head + [sep] + tail;
    var i := IndexOf(s, sep);
    assert s[|head|] == sep;
    assert s[..|head|] == head;
    forall k | 0 <= k < |head| ensures s[k] != sep {
      assert s[k] == head[k];
    }
    forall k | |head| < k <= |s| ensures sep in s[..k] {
      assert s[..k][|head|] == sep;
    }
    assert i == |head|;
    assert s[i + 1..] == tail;
  }

  /** Go's `strings.Join`. */
  function Join(parts: seq<string>, sep: string): string
  {
    if |parts| == 0 then ""
    else if |parts| == 1 then parts[0]
    else parts[0] + sep + Join(parts[1..], sep)
  }

  /** Appending one part extends the joined string by the separator and that part. */
  lemma {:induction false} JoinSnoc(parts: seq<string>, x: string, sep: string)
    requires |parts| > 0
    ensures Join(parts + [x], sep) == Join(parts, sep) + sep + x
  {
    if |parts| == 1 {
      assert parts + [x] == [parts[0], x];
    } else {
      assert (parts + [x])[1..] == parts[1..] + [x];
      JoinSnoc(parts[1..], x, sep);
    }
  }

  /** The separator `headers.String` puts between entries. */
  const ListSep: string := ", "

  /** `", "` starts at index `k` of `s`. */
  predicate SepAt(s: string, k: int) {
    0 <= k && k + 1 < |s| && s[k] == ',' && s[k + 1] == ' '
  }

  /** Index of the first `", "` in `s`, or -1. */
  function FindSep(s: string): (r: int)
    ensures -1 <= r < |s|
    ensures r >= 0 ==> SepAt(s, r)
    ensures forall k | 0 <= k && (r < 0 || k < r) :: !SepAt(s, k)
  {
    if |s| < 2 then -1
    else if s[0] == ',' && s[1] == ' ' then 0
    else
      var j := FindSep(s[1..]);
      assert forall k | 1 <= k :: SepAt(s, k) == SepAt(s[1..], k - 1);
      if j < 0 then -1 else j + 1
  }

  /** Cut `s` at every `", "`, scanning left to right. */
  function SplitList(s: string): seq<string>
    decreases |s|
  {
    var i := FindSep(s);
    if i < 0 then [s] else [s[..i]] + SplitList(s[i + 2..])
  }

  /** The first separator of `x + ", " + y` is the one just after `x` when `x` holds none. */
  lemma FindSepAfter(x: string, y: string)
    requires FindSep(x) < 0
    ensures FindSep(x + ListSep + y) == |x|
  {
    var s := x + ListSep + y;
    var r := FindSep(s);
    assert SepAt(s, |x|);
    forall k | 0 <= k < |x| ensures !SepAt(s, k) {
      if k + 1 < |x| {
        assert SepAt(s, k) == SepAt(x, k);
      } else {
        assert s[k + 1] == ',';
      }
    }
  }

  /**
   Splitting the joined list at `", "` gives the list back, provided no entry
   itself contains `", "`.
   */
  lemma {:induction false} SplitJoin(parts: seq<string>)
    requires |parts| > 0
    requires forall i | 0 <= i < |parts| :: FindSep(parts[i]) < 0
    ensures SplitList(Join(parts, ListSep)) == parts
  {
    if |parts| == 1 {
    } else {
      var rest := Join(parts[1..], ListSep);
      FindSepAfter(parts[0], rest);
      var s := parts[0] + ListSep + rest;
      assert s[..|parts[0]|] == parts[0];
      assert s[|parts[0]| + 2..] == rest;
      SplitJoin(parts[1..]);
      assert parts == [parts[0]] + parts[1..];
    }
  }
}
