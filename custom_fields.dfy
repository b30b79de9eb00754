/**
 * Parsing the admin form's comma-separated custom-field list:
 * `customFields.split(',').map(f => f.trim()).filter(Boolean)`.
 */
module CustomFields {

  /** The characters JavaScript's `String.prototype.trim` removes: the
      ECMAScript WhiteSpace (tab, vertical tab, form feed, the byte-order mark
      and every Unicode space separator) and LineTerminator code points. */
  predicate IsSpace(c: char)
    ensures IsSpace(c) ==> c != ','
    ensures ('0' <= c <= '9' || 'a' <= c <= 'z' || 'A' <= c <= 'Z') ==> !IsSpace(c)
  {
    || c == '\t' || c == '\U{000B}' || c == '\U{000C}' || c == '\U{FEFF}'
    || c == '\n' || c == '\r' || c == '\U{2028}' || c == '\U{2029}'
    || c == ' ' || c == '\U{00A0}' || c == '\U{1680}'
    || ('\U{2000}' <= c <= '\U{200A}')
    || c == '\U{202F}' || c == '\U{205F}' || c == '\U{3000}'
  }

  /** Neither starts nor ends with a space character. */
  predicate Trimmed(s: string)
  {
    s == [] || (!IsSpace(s[0]) && !IsSpace(s[|s| - 1]))
  }

  /** Every character of `s` is a space character. */
  predicate AllSpace(s: string)
  {
    forall k :: 0 <= k < |s| ==> IsSpace(s[k])
  }

  /** `s` with its leading space characters removed. */
  function TrimStart(s: string): (r: string)
    ensures |r| <= |s|
    ensures r == [] || !IsSpace(r[0])
  {
    if s != [] && IsSpace(s[0]) then TrimStart(s[1..]) else s
  }

  /** `s` with its trailing space characters removed. */
  function TrimEnd(s: string): (r: string)
    ensures |r| <= |s|
    ensures r == [] || !IsSpace(r[|r| - 1])
  {
    if s != [] && IsSpace(s[|s| - 1]) then TrimEnd(s[..|s| - 1]) else s
  }

  /** `TrimStart` removes a prefix made only of space characters. */
  lemma {:induction false} TrimStartShape(s: string)
    ensures s == s[..|s| - |TrimStart(s)|] + TrimStart(s)
    ensures AllSpace(s[..|s| - |TrimStart(s)|])
  {
    if s != [] && IsSpace(s[0]) {
      TrimStartShape(s[1..]);
      var n := |s| - |TrimStart(s)|;
      assert s[..n] == [s[0]] + s[1..][..n - 1];
    }
  }

  /** `TrimEnd` removes a suffix made only of space characters. */
  lemma {:induction false} TrimEndShape(s: string)
    ensures s == TrimEnd(s) + s[|TrimEnd(s)|..]
    ensures AllSpace(s[|TrimEnd(s)|..])
  {
    if s != [] && IsSpace(s[|s| - 1]) {
      var s' := s[..|s| - 1];
      TrimEndShape(s');
      var n := |TrimEnd(s)|;
      assert s[n..] == s'[n..] + [s[|s| - 1]];
    }
  }

  /** `s.trim()`: `s` without its leading and trailing space characters. */
  function Trim(s: string): (r: string)
    ensures |r| <= |s|
    ensures Trimmed(r)
    ensures Trimmed(s) ==> r == s
  {
    var t := TrimStart(s);
    TrimEndShape(t);
    TrimEnd(t)
  }

  /** What `Trim` keeps is the middle of `s`; the parts it drops on either side are all space characters. */
  lemma TrimShape(s: string)
    ensures exists p, q :: s == p + Trim(s) + q && AllSpace(p) && AllSpace(q)
  {
    var t := TrimStart(s);
    TrimStartShape(s);
    TrimEndShape(t);
    var r := TrimEnd(t);
    assert r == Trim(s);
    var p, q := s[..|s| - |t|], t[|r|..];
    assert s == p + t && t == r + q;
    assert s == p + r + q;
    assert AllSpace(p) && AllSpace(q);
  }

  /** `s.split(',')`: the pieces between commas; never empty, and no piece holds a comma. */
  function Split(s: string): (pieces: seq<string>)
    ensures |pieces| >= 1
    ensures forall k :: 0 <= k < |pieces| ==> ',' !in pieces[k]
  {
    if s == [] then [[]]
    else
      var rest := Split(s[1..]);
      if s[0] == ',' then [[]] + rest
      else [[s[0]] + rest[0]] + rest[1..]
  }

  /** `pieces.join(',')`, the inverse of `Split`. */
  function Join(pieces: seq<string>): string
  {
    if pieces == [] then ""
    else if |pieces| == 1 then pieces[0]
    else pieces[0] + "," + Join(pieces[1..])
  }

  /** `pieces.map(f => f.trim())`. */
  function TrimAll(pieces: seq<string>): (r: seq<string>)
    ensures |r| == |pieces|
    ensures forall k :: 0 <= k < |r| ==> r[k] == Trim(pieces[k])
  {
    if pieces == [] then [] else [Trim(pieces[0])] + TrimAll(pieces[1..])
  }

  /** `pieces.filter(Boolean)`: the empty string is the only falsy string.
      Every non-empty piece is kept as often as it occurs. */
  function DropEmpty(pieces: seq<string>): (r: seq<string>)
    ensures forall k :: 0 <= k < |r| ==> r[k] != []
    ensures forall s :: s != [] ==> multiset(r)[s] == multiset(pieces)[s]
    ensures (forall k :: 0 <= k < |pieces| ==> pieces[k] != []) ==> r == pieces
  {
    if pieces == [] then []
    else
      assert pieces == [pieces[0]] + pieces[1..];
      (if pieces[0] == [] then [] else [pieces[0]]) + DropEmpty(pieces[1..])
  }

  /** The custom-field names of a new product. */
  function ParseCustomFields(csv: string): (names: seq<string>)
    ensures forall k :: 0 <= k < |names| ==> names[k] != [] && Trimmed(names[k]) && ',' !in names[k]
  {
    var pieces := Split(csv);
    var trimmed := TrimAll(pieces);
    forall k | 0 <= k < |trimmed| ensures ',' !in trimmed[k] {
      TrimKeepsOut(pieces[k], ',');
    }
    var names := DropEmpty(trimmed);
    forall k | 0 <= k < |names| ensures names[k] in trimmed {
      assert multiset(names)[names[k]] > 0;
    }
    names
  }

  /** Trimming only removes characters. */
  lemma TrimKeepsOut(s: string, c: char)
    requires c !in s
    ensures c !in Trim(s)
  {
    TrimShape(s);
    var p, q :| s == p + Trim(s) + q && AllSpace(p) && AllSpace(q);
    assert multiset(s) == multiset(p) + multiset(Trim(s)) + multiset(q);
  }

  /** Splitting a text that starts with a comma-free `a`: `a` glues onto the first piece. */
  lemma {:induction false} SplitPrefix(a: string, t: string)
    requires ',' !in a
    ensures Split(a + t) == [a + Split(t)[0]] + Split(t)[1..]
  {
    if a == [] {
      var pieces := Split(t);
      assert a + t == t;
      assert a + pieces[0] == pieces[0];
      assert [pieces[0]] + pieces[1..] == pieces;
    } else {
      assert (a + t)[0] == a[0];
      assert (a + t)[1..] == a[1..] + t;
      SplitPrefix(a[1..], t);
      var rest := Split(a[1..] + t);
      assert Split(a + t) == [[a[0]] + rest[0]] + rest[1..];
      assert [a[0]] + (a[1..] + Split(t)[0]) == a + Split(t)[0];
    }
  }

  /** Joining the pieces of a split gives back the text. */
  lemma {:induction false} JoinSplit(s: string)
    ensures Join(Split(s)) == s
  {
    if s != [] {
      var rest := Split(s[1..]);
      JoinSplit(s[1..]);
      if s[0] == ',' {
        assert ([[]] + rest)[1..] == rest;
      } else if |rest| > 1 {
        var pieces := [[s[0]] + rest[0]] + rest[1..];
        assert pieces[1..] == rest[1..];
        assert Join(rest) == rest[0] + "," + Join(rest[1..]);
      }
    }
  }

  /** Splitting a join of comma-free pieces gives back the pieces. */
  lemma {:induction false} SplitJoin(pieces: seq<string>)
    requires |pieces| >= 1
    requires forall k :: 0 <= k < |pieces| ==> ',' !in pieces[k]
    ensures Split(Join(pieces)) == pieces
  {
    if |pieces| == 1 {
      SplitPrefix(pieces[0], []);
      assert pieces[0] + [] == pieces[0];
    } else {
      var t := "," + Join(pieces[1..]);
      assert Join(pieces) == pieces[0] + t;
      SplitJoin(pieces[1..]);
      assert t[1..] == Join(pieces[1..]);
      assert Split(t) == [[]] + pieces[1..];
      SplitPrefix(pieces[0], t);
      assert pieces[0] + [] == pieces[0];
      assert ([[]] + pieces[1..])[1..] == pieces[1..];
      assert [pieces[0]] + pieces[1..] == pieces;
    }
  }

  /** Field names that are non-empty, trimmed and comma-free survive being
      written as a comma-separated list and parsed again: same names, same
      order, duplicates kept. */
  lemma ParseJoin(names: seq<string>)
    requires forall k :: 0 <= k < |names| ==> names[k] != [] && Trimmed(names[k]) && ',' !in names[k]
    ensures ParseCustomFields(Join(names)) == names
  {
    if names == [] {
      assert Split("") == [[]];
      assert TrimAll([[]]) == [[]];
      assert DropEmpty([[]]) == [];
    } else {
      SplitJoin(names);
      TrimAllTrimmed(names);
    }
  }

  /** Trimming pieces that are already trimmed changes nothing. */
  lemma TrimAllTrimmed(pieces: seq<string>)
    requires forall k :: 0 <= k < |pieces| ==> Trimmed(pieces[k])
    ensures TrimAll(pieces) == pieces
  {
    var r := TrimAll(pieces);
    assert forall k :: 0 <= k < |r| ==> r[k] == pieces[k];
  }

  /** Parsing is idempotent: the names re-parse to themselves once joined. */
  lemma ParseIdempotent(csv: string)
    ensures ParseCustomFields(Join(ParseCustomFields(csv))) == ParseCustomFields(csv)
  {
    ParseJoin(ParseCustomFields(csv));
  }

  /** `filter` keeps the order of what it keeps: filtering a concatenation
      is filtering each part, and a single piece stays exactly when it is non-empty. */
  lemma {:induction false} DropEmptyAppend(a: seq<string>, b: seq<string>)
    ensures DropEmpty(a + b) == DropEmpty(a) + DropEmpty(b)
    ensures |a| == 1 ==> DropEmpty(a) == (if a[0] == [] then [] else a)
  {
    if a == [] {
      assert a + b == b;
    } else {
      assert (a + b)[0] == a[0];
      assert (a + b)[1..] == a[1..] + b;
      DropEmptyAppend(a[1..], b);
      var h := if a[0] == [] then [] else [a[0]];
      assert DropEmpty(a + b) == h + DropEmpty(a[1..] + b);
      assert h + (DropEmpty(a[1..]) + DropEmpty(b)) == (h + DropEmpty(a[1..])) + DropEmpty(b);
      if |a| == 1 {
        assert a[1..] == [];
      }
    }
  }

  /** `map` over a concatenation is the concatenation of the maps. */
  lemma TrimAllAppend(a: seq<string>, b: seq<string>)
    ensures TrimAll(a + b) == TrimAll(a) + TrimAll(b)
  {
    var r, r' := TrimAll(a + b), TrimAll(a) + TrimAll(b);
    assert |r| == |r'|;
    forall k | 0 <= k < |r| ensures r[k] == r'[k] {
      if k < |a| {
        assert (a + b)[k] == a[k];
      } else {
        assert (a + b)[k] == b[k - |a|];
      }
    }
  }

  /** Joining two non-empty lists of pieces with a comma between them joins their concatenation. */
  lemma {:induction false} JoinAppend(a: seq<string>, b: seq<string>)
    requires |a| >= 1 && |b| >= 1
    ensures Join(a) + "," + Join(b) == Join(a + b)
  {
    if |a| == 1 {
      assert (a + b)[0] == a[0] && (a + b)[1..] == b;
    } else {
      JoinAppend(a[1..], b);
      assert (a + b)[0] == a[0] && (a + b)[1..] == a[1..] + b;
      assert Join(a) == a[0] + "," + Join(a[1..]);
      assert Join(a + b) == a[0] + "," + Join(a[1..] + b);
    }
  }

  /** Splitting at a comma: the pieces of the text before it, then those after it. */
  lemma SplitComma(x: string, y: string)
    ensures Split(x + "," + y) == Split(x) + Split(y)
  {
    var px, py := Split(x), Split(y);
    JoinSplit(x);
    JoinSplit(y);
    JoinAppend(px, py);
    assert x + "," + y == Join(px + py);
    SplitJoin(px + py);
  }

  /** The names parsed from `x,y` are those parsed from `x` followed by those
      parsed from `y`: parsing keeps the order of the list and drops only
      pieces that are empty once trimmed. */
  lemma ParseComma(x: string, y: string)
    ensures ParseCustomFields(x + "," + y) == ParseCustomFields(x) + ParseCustomFields(y)
  {
    SplitComma(x, y);
    TrimAllAppend(Split(x), Split(y));
    DropEmptyAppend(TrimAll(Split(x)), TrimAll(Split(y)));
  }

  /** A comma-free piece parses to its trim, or to nothing when that is empty. */
  lemma ParsePiece(x: string)
    requires ',' !in x
    ensures ParseCustomFields(x) == (if Trim(x) == [] then [] else [Trim(x)])
  {
    SplitJoin([x]);
    assert TrimAll([x]) == [Trim(x)];
    DropEmptyAppend([Trim(x)], []);
    assert [Trim(x)] + [] == [Trim(x)];
  }

  /** A piece made only of space characters trims to nothing. */
  lemma {:induction false} TrimAllSpace(s: string)
    requires AllSpace(s)
    ensures TrimStart(s) == [] && Trim(s) == []
  {
    if s != [] {
      TrimAllSpace(s[1..]);
    }
  }

  /** A blank entry in front of a name vanishes. */
  lemma ParseBlankThen(blank: string, y: string)
    requires y != [] && Trimmed(y) && ',' !in y
    requires AllSpace(blank) && ',' !in blank
    ensures ParseCustomFields(blank + "," + y) == [y]
  {
    ParseComma(blank, y);
    TrimAllSpace(blank);
    ParsePiece(blank);
    ParsePiece(y);
  }

  /** A blank entry between two names vanishes and the names keep their
      order: `x, ,y` gives `x` then `y`, never `y` then `x`. */
  lemma ParseSkipsBlank(x: string, blank: string, y: string)
    requires x != [] && Trimmed(x) && ',' !in x
    requires y != [] && Trimmed(y) && ',' !in y
    requires AllSpace(blank) && ',' !in blank
    ensures ParseCustomFields(x + "," + blank + "," + y) == [x, y]
  {
    var rest := blank + "," + y;
    assert x + "," + blank + "," + y == x + "," + rest;
    ParseComma(x, rest);
    ParseBlankThen(blank, y);
    ParsePiece(x);
  }
}
