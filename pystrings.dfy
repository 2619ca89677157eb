/**
 * The two pieces of Python string behaviour the auth gate depends on:
 * `str.split()` with no separator, and comparing `s.lower()` with "bearer".
 */
module PyStrings {

  /**
   * Python's whitespace for `str.split()`: the ASCII characters 9-13 and
   * 28-32, plus the Unicode characters whose category is Zs or whose
   * bidirectional class is B, S or WS.
   */
  predicate IsSpace(c: char)
  {
    || ('\t' <= c <= '\r')
    || ('\U{1C}' <= c <= ' ')
    || c == '\U{85}' || c == '\U{A0}' || c == '\U{1680}'
    || ('\U{2000}' <= c <= '\U{200A}')
    || c == '\U{2028}' || c == '\U{2029}' || c == '\U{202F}'
    || c == '\U{205F}' || c == '\U{3000}'
  }

  predicate AllSpace(s: string)
  {
    forall i :: 0 <= i < |s| ==> IsSpace(s[i])
  }

  /** A field of `str.split()`'s result: non-empty, without whitespace. */
  predicate IsField(s: string)
  {
    s != [] && forall i :: 0 <= i < |s| ==> !IsSpace(s[i])
  }

  /** Length of the run of non-whitespace characters at the start of `s`. */
  function FieldLength(s: string): (n: nat)
    ensures n <= |s|
    ensures forall i :: 0 <= i < n ==> !IsSpace(s[i])
    ensures n == |s| || IsSpace(s[n])
  {
    if s == [] || IsSpace(s[0]) then 0 else 1 + FieldLength(s[1..])
  }

  /**
   * `s.split()`: the maximal runs of non-whitespace characters, in order.
   * Leading, trailing and repeated whitespace produce no empty fields.
   */
  function Split(s: string): (r: seq<string>)
    ensures forall i :: 0 <= i < |r| ==> IsField(r[i])
    decreases |s|
  {
    if s == [] then []
    else if IsSpace(s[0]) then Split(s[1..])
    else
      var n := FieldLength(s);
      [s[..n]] + Split(s[n..])
  }

  /** `s` with every whitespace character removed. */
  function RemoveSpaces(s: string): (r: string)
  {
    if s == [] then []
    else if IsSpace(s[0]) then RemoveSpaces(s[1..])
    else [s[0]] + RemoveSpaces(s[1..])
  }

  function Concat(fields: seq<string>): (r: string)
  {
    if fields == [] then [] else fields[0] + Concat(fields[1..])
  }

  /**
   * `ws[0] + fields[0] + ws[1] + ... + fields[n-1] + ws[n]`: fields laid out
   * between runs of whitespace.
   */
  function Layout(ws: seq<string>, fields: seq<string>): (r: string)
    requires |ws| == |fields| + 1
    decreases fields
  {
    if fields == [] then ws[0] else ws[0] + fields[0] + Layout(ws[1..], fields[1..])
  }

  /**
   * The separators of a layout: every run is whitespace, and the runs that
   * stand between two fields are not empty.
   */
  predicate IsSeparation(ws: seq<string>, fields: seq<string>)
  {
    && |ws| == |fields| + 1
    && (forall i :: 0 <= i < |ws| ==> AllSpace(ws[i]))
    && (forall i :: 0 < i < |fields| ==> ws[i] != [])
  }

  lemma {:induction false} FieldLengthOfField(f: string, rest: string)
    requires IsField(f)
    requires rest == [] || IsSpace(rest[0])
    ensures FieldLength(f + rest) == |f|
    decreases |f|
  {
    var s := f + rest;
    assert s[0] == f[0];
    if |f| > 1 {
      assert s[1..] == f[1..] + rest;
      FieldLengthOfField(f[1..], rest);
    } else {
      assert s[1..] == rest;
    }
  }

  /** Whitespace before the first field is dropped. */
  lemma {:induction false} SplitSkipsSpace(w: string, s: string)
    requires AllSpace(w)
    ensures Split(w + s) == Split(s)
    decreases |w|
  {
    if w != [] {
      assert (w + s)[1..] == w[1..] + s;
      SplitSkipsSpace(w[1..], s);
    } else {
      assert w + s == s;
    }
  }

  /** A field followed by whitespace or by the end is split off as one field. */
  lemma SplitField(f: string, rest: string)
    requires IsField(f)
    requires rest == [] || IsSpace(rest[0])
    ensures Split(f + rest) == [f] + Split(rest)
  {
    FieldLengthOfField(f, rest);
    var s := f + rest;
    assert s[..|f|] == f && s[|f|..] == rest;
  }

  /** Splitting a layout recovers exactly its fields. */
  lemma {:induction false} SplitLayout(ws: seq<string>, fields: seq<string>)
    requires IsSeparation(ws, fields)
    requires forall i :: 0 <= i < |fields| ==> IsField(fields[i])
    ensures Split(Layout(ws, fields)) == fields
    decreases fields
  {
    if fields == [] {
      SplitSkipsSpace(ws[0], []);
      assert ws[0] + [] == ws[0];
    } else {
      var tail := Layout(ws[1..], fields[1..]);
      assert IsSeparation(ws[1..], fields[1..]) by {
        forall i | 0 <= i < |ws[1..]| ensures AllSpace(ws[1..][i]) {
          assert ws[1..][i] == ws[i + 1];
        }
        forall i | 0 < i < |fields[1..]| ensures ws[1..][i] != [] {
          assert ws[1..][i] == ws[i + 1];
        }
      }
      SplitLayout(ws[1..], fields[1..]);
      assert ws[0] + fields[0] + tail == ws[0] + (fields[0] + tail);
      SplitSkipsSpace(ws[0], fields[0] + tail);
      assert tail == [] || IsSpace(tail[0]) by {
        if |fields| == 1 {
          assert tail == ws[1];
        } else {
          assert tail == ws[1] + fields[1] + Layout(ws[2..], fields[2..]) by {
            assert ws[1..][1..] == ws[2..] && fields[1..][1..] == fields[2..];
          }
          assert tail[0] == ws[1][0];
        }
      }
      assert IsField(fields[0]);
      SplitField(fields[0], tail);
      assert [fields[0]] + fields[1..] == fields;
    }
  }

  /** Extending the first run of whitespace extends the layout at the front. */
  lemma LayoutPrepend(w: string, ws: seq<string>, fields: seq<string>)
    requires |ws| == |fields| + 1
    ensures Layout([w + ws[0]] + ws[1..], fields) == w + Layout(ws, fields)
  {
    var ws2 := [w + ws[0]] + ws[1..];
    assert ws2[1..] == ws[1..];
    if fields != [] {
      assert w + ws[0] + fields[0] + Layout(ws[1..], fields[1..])
          == w + (ws[0] + fields[0] + Layout(ws[1..], fields[1..]));
    }
  }

  /** A layout whose first run is empty starts with its first field. */
  lemma LayoutHead(ws: seq<string>, fields: seq<string>)
    requires |ws| == |fields| + 1 && fields != [] && IsField(fields[0])
    ensures ws[0] == [] ==> Layout(ws, fields) != [] && !IsSpace(Layout(ws, fields)[0])
  {
    if ws[0] == [] {
      assert Layout(ws, fields) == fields[0] + Layout(ws[1..], fields[1..]);
    }
  }

  /** A string that starts with whitespace is a layout of its own split. */
  lemma LayoutOfSplitSpace(s: string, ws': seq<string>) returns (ws: seq<string>)
    requires s != [] && IsSpace(s[0])
    requires IsSeparation(ws', Split(s[1..])) && Layout(ws', Split(s[1..])) == s[1..]
    ensures IsSeparation(ws, Split(s)) && Layout(ws, Split(s)) == s
  {
    var fields := Split(s);
    ws := [[s[0]] + ws'[0]] + ws'[1..];
    assert AllSpace(ws[0]);
    assert forall i :: 0 < i < |ws| ==> ws[i] == ws'[i];
    LayoutPrepend([s[0]], ws', fields);
    assert [s[0]] + s[1..] == s;
  }

  /** A string that starts with a field is a layout of its own split. */
  lemma LayoutOfSplitField(s: string, ws': seq<string>) returns (ws: seq<string>)
    requires s != [] && !IsSpace(s[0])
    requires IsSeparation(ws', Split(s[FieldLength(s)..]))
    requires Layout(ws', Split(s[FieldLength(s)..])) == s[FieldLength(s)..]
    ensures IsSeparation(ws, Split(s)) && Layout(ws, Split(s)) == s
  {
    var n := FieldLength(s);
    var rest := Split(s[n..]);
    var fields := [s[..n]] + rest;
    assert Split(s) == fields;
    ws := [[]] + ws';
    assert fields[1..] == rest && ws[1..] == ws';
    assert Layout(ws, fields) == s[..n] + Layout(ws', rest);
    assert s[..n] + s[n..] == s;
    if rest != [] {
      // the text after the first field starts with whitespace, so the run
      // before the second field cannot be empty
      LayoutHead(ws', rest);
      assert IsSpace(s[n..][0]);
    }
    SeparationPrependField(ws', rest, s[..n]);
  }

  /** Adding a field with no whitespace before it keeps a separation valid. */
  lemma SeparationPrependField(ws: seq<string>, fields: seq<string>, f: string)
    requires IsSeparation(ws, fields)
    requires fields != [] ==> ws[0] != []
    ensures IsSeparation([[]] + ws, [f] + fields)
  {
    var ws2, fields2 := [[]] + ws, [f] + fields;
    forall i | 0 <= i < |ws2| ensures AllSpace(ws2[i]) {
      if i > 0 { assert ws2[i] == ws[i - 1]; }
    }
    forall i | 0 < i < |fields2| ensures ws2[i] != [] {
      assert ws2[i] == ws[i - 1];
    }
  }

  /** Conversely, every string is a layout of its own split. */
  lemma {:induction false} LayoutOfSplit(s: string) returns (ws: seq<string>)
    ensures IsSeparation(ws, Split(s)) && Layout(ws, Split(s)) == s
    decreases |s|
  {
    if s == [] {
      ws := [[]];
    } else if IsSpace(s[0]) {
      var ws' := LayoutOfSplit(s[1..]);
      ws := LayoutOfSplitSpace(s, ws');
    } else {
      var ws' := LayoutOfSplit(s[FieldLength(s)..]);
      ws := LayoutOfSplitField(s, ws');
    }
  }

  /**
   * `s.split()` is exactly the list of fields that `s` lays out between runs
   * of whitespace.
   */
  lemma SplitIsLayout(s: string, fields: seq<string>)
    ensures Split(s) == fields <==>
      && (forall i :: 0 <= i < |fields| ==> IsField(fields[i]))
      && exists ws :: IsSeparation(ws, fields) && Layout(ws, fields) == s
  {
    if Split(s) == fields {
      var ws := LayoutOfSplit(s);
      assert IsSeparation(ws, fields) && Layout(ws, fields) == s;
    } else if forall i :: 0 <= i < |fields| ==> IsField(fields[i]) {
      forall ws | IsSeparation(ws, fields) ensures Layout(ws, fields) != s {
        SplitLayout(ws, fields);
      }
    }
  }

  /** Fields and their single-space join round-trip through `Split`. */
  function JoinWithSpace(fields: seq<string>): (r: string)
  {
    if fields == [] then []
    else if |fields| == 1 then fields[0]
    else fields[0] + " " + JoinWithSpace(fields[1..])
  }

  lemma {:induction false} SplitJoin(fields: seq<string>)
    requires forall i :: 0 <= i < |fields| ==> IsField(fields[i])
    ensures Split(JoinWithSpace(fields)) == fields
    decreases fields
  {
    if |fields| == 1 {
      SplitField(fields[0], []);
      assert fields[0] + [] == fields[0];
    } else if |fields| > 1 {
      SplitJoin(fields[1..]);
      var tail := JoinWithSpace(fields[1..]);
      assert fields[0] + " " + tail == fields[0] + (" " + tail);
      SplitField(fields[0], " " + tail);
      SplitSkipsSpace(" ", tail);
      assert [fields[0]] + fields[1..] == fields;
    }
  }

  /** `Split` keeps every non-whitespace character, in order, and nothing else. */
  lemma {:induction false} SplitKeepsText(s: string)
    ensures Concat(Split(s)) == RemoveSpaces(s)
    decreases |s|
  {
    if s != [] {
      if IsSpace(s[0]) {
        SplitKeepsText(s[1..]);
      } else {
        var n := FieldLength(s);
        SplitKeepsText(s[n..]);
        assert ([s[..n]] + Split(s[n..]))[1..] == Split(s[n..]);
        FieldHasNoSpaces(s, n);
      }
    }
  }

  /** Removing whitespace from a field followed by `s[n..]`. */
  lemma {:induction false} FieldHasNoSpaces(s: string, n: nat)
    requires 0 < n <= |s|
    requires forall i :: 0 <= i < n ==> !IsSpace(s[i])
    ensures RemoveSpaces(s) == s[..n] + RemoveSpaces(s[n..])
    decreases n
  {
    if n == 1 {
      assert s[..1] == [s[0]];
      assert s[1..] == s[n..];
    } else {
      FieldHasNoSpaces(s[1..], n - 1);
      assert s[1..][n - 1..] == s[n..];
      assert [s[0]] + s[1..][..n - 1] == s[..n];
    }
  }

  /** ASCII lower-casing; the only characters whose `lower()` can produce "bearer". */
  function AsciiLower(c: char): (r: char)
  {
    if 'A' <= c <= 'Z' then (c as int + 32) as char else c
  }

  /** `f.lower() == "bearer"`. */
  predicate IsBearerScheme(f: string)
  {
    |f| == 6 && forall i :: 0 <= i < 6 ==> AsciiLower(f[i]) == "bearer"[i]
  }

  /** The scheme check accepts each letter of "bearer" in either case, and nothing else. */
  lemma BearerSchemeCases(f: string)
    ensures IsBearerScheme(f) <==>
      |f| == 6 && forall i :: 0 <= i < 6 ==> f[i] == "bearer"[i] || f[i] == "BEARER"[i]
  {
    if |f| == 6 {
      if IsBearerScheme(f) {
        forall i | 0 <= i < 6 ensures f[i] == "bearer"[i] || f[i] == "BEARER"[i] {
          assert AsciiLower(f[i]) == "bearer"[i];
        }
      }
    }
  }
}
