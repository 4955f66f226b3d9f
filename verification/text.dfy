/**
 * The two text operations the work-day column goes through: Ruby's
 * `Array#join(',')` when a project is stored and `String#split(',')` when its
 * daily hours are computed; and the byte-wise text order SQLite uses for
 * `ORDER BY` on a TEXT column.
 */
module Text {

  /** The number of characters of all the parts together. */
  function TotalLength(parts: seq<string>): nat
  {
    if parts == [] then 0 else |parts[0]| + TotalLength(parts[1..])
  }

  /**
   * `parts.join(sep)`: the parts with one separator between neighbours; `[]`
   * joins to "". The text starts with the first part, and it is longer than
   * all the parts together by one separator for each gap between them.
   */
  function Join(parts: seq<string>, sep: char): (s: string)
    ensures |s| == TotalLength(parts) + (if parts == [] then 0 else |parts| - 1)
    ensures parts != [] ==> s[..|parts[0]|] == parts[0]
  {
    if parts == [] then []
    else if |parts| == 1 then parts[0]
    else parts[0] + [sep] + Join(parts[1..], sep)
  }

  /** Every field between separators, empty ones included: n separators give n + 1 fields. */
  function Fields(s: string, sep: char): (r: seq<string>)
    ensures |r| >= 1
    ensures forall f :: f in r ==> sep !in f
    decreases |s|
  {
    if s == [] then [[]]
    else
      var rest := Fields(s[1..], sep);
      if s[0] == sep then [[]] + rest
      else [[s[0]] + rest[0]] + rest[1..]
  }

  /** Removes the empty fields at the end, as Ruby's split does when given no limit. */
  function DropTrailingEmpty(fs: seq<string>): (r: seq<string>)
    ensures |r| <= |fs| && r == fs[..|r|]
    ensures r == [] || r[|r| - 1] != []
    ensures forall k :: |r| <= k < |fs| ==> fs[k] == []
  {
    if fs != [] && fs[|fs| - 1] == [] then DropTrailingEmpty(fs[..|fs| - 1]) else fs
  }

  /**
   * `s.split(',')`: the fields between separators with trailing empty fields
   * suppressed. There are no fields exactly when the text is made of
   * separators only, "" included.
   */
  function Split(s: string, sep: char): (r: seq<string>)
    ensures forall f :: f in r ==> sep !in f
    ensures r == [] || r[|r| - 1] != []
    ensures r == [] <==> forall i :: 0 <= i < |s| ==> s[i] == sep
  {
    var fs := Fields(s, sep);
    FieldsAllEmpty(s, sep);
    var r := DropTrailingEmpty(fs);
    assert r != [] ==> fs[|r| - 1] == r[|r| - 1];
    r
  }

  /** Every field is empty exactly when every character is a separator. */
  lemma {:induction false} FieldsAllEmpty(s: string, sep: char)
    ensures (forall k :: 0 <= k < |Fields(s, sep)| ==> Fields(s, sep)[k] == [])
            <==> forall i :: 0 <= i < |s| ==> s[i] == sep
    decreases |s|
  {
    if s != [] {
      FieldsAllEmpty(s[1..], sep);
      var rest := Fields(s[1..], sep);
      if s[0] == sep {
        var fs := Fields(s, sep);
        assert fs == [[]] + rest;
        assert (forall k :: 0 <= k < |fs| ==> fs[k] == []) <==> (forall k :: 0 <= k < |rest| ==> rest[k] == []) by {
          assert forall k :: 1 <= k < |fs| ==> fs[k] == rest[k - 1];
          assert forall k :: 0 <= k < |rest| ==> rest[k] == fs[k + 1];
        }
        assert (forall i :: 0 <= i < |s| ==> s[i] == sep) <==> (forall i :: 0 <= i < |s[1..]| ==> s[1..][i] == sep) by {
          assert forall i :: 1 <= i < |s| ==> s[i] == s[1..][i - 1];
          assert forall i :: 0 <= i < |s[1..]| ==> s[1..][i] == s[i + 1];
        }
      } else {
        assert Fields(s, sep)[0] != [];
      }
    }
  }

  /** Text without a separator is a single field. */
  lemma {:induction false} FieldsOfPlain(x: string, sep: char)
    requires sep !in x
    ensures Fields(x, sep) == [x]
    decreases |x|
  {
    if x != [] {
      FieldsOfPlain(x[1..], sep);
      assert [x[0]] + x[1..] == x;
    }
  }

  /** A separator after a plain prefix closes exactly one field. */
  lemma {:induction false} FieldsAfter(x: string, sep: char, t: string)
    requires sep !in x
    ensures Fields(x + [sep] + t, sep) == [x] + Fields(t, sep)
    decreases |x|
  {
    var s := x + [sep] + t;
    if x == [] {
      assert s[1..] == t;
    } else {
      assert s[1..] == x[1..] + [sep] + t;
      FieldsAfter(x[1..], sep, t);
      assert [x[0]] + x[1..] == x;
    }
  }

  /** Splitting a join at every separator gives back the parts, empty ones included. */
  lemma {:induction false} FieldsJoin(parts: seq<string>, sep: char)
    requires |parts| > 0
    requires forall p :: p in parts ==> sep !in p
    ensures Fields(Join(parts, sep), sep) == parts
    decreases |parts|
  {
    if |parts| == 1 {
      FieldsOfPlain(parts[0], sep);
    } else {
      FieldsJoin(parts[1..], sep);
      FieldsAfter(parts[0], sep, Join(parts[1..], sep));
      assert [parts[0]] + parts[1..] == parts;
    }
  }

  /**
   * Round trip of the work-day column: a list of separator-free names whose
   * last name is not empty (in particular the empty list, and any list of
   * non-empty names) is recovered from its joined text. Duplicates survive.
   */
  lemma SplitJoin(parts: seq<string>, sep: char)
    requires forall p :: p in parts ==> sep !in p
    requires parts == [] || parts[|parts| - 1] != []
    ensures Split(Join(parts, sep), sep) == parts
  {
    if parts == [] {
      assert Fields([], sep) == [[]];
    } else {
      FieldsJoin(parts, sep);
    }
  }

  /**
   * Lexicographic order on code points: a proper prefix comes first. For
   * UTF-8 text this is the order of SQLite's default BINARY collation.
   */
  predicate LexLe(a: string, b: string)
    ensures a <= b ==> LexLe(a, b)
    decreases |a|
  {
    a == [] || (b != [] && (a[0] < b[0] || (a[0] == b[0] && LexLe(a[1..], b[1..]))))
  }

  lemma {:induction false} LexLeTotal(a: string, b: string)
    ensures LexLe(a, b) || LexLe(b, a)
    decreases |a|
  {
    if a != [] && b != [] && a[0] == b[0] {
      LexLeTotal(a[1..], b[1..]);
    }
  }

  lemma {:induction false} LexLeTransitive(a: string, b: string, c: string)
    requires LexLe(a, b) && LexLe(b, c)
    ensures LexLe(a, c)
    decreases |a|
  {
    if a != [] && a[0] == b[0] && b[0] == c[0] {
      LexLeTransitive(a[1..], b[1..], c[1..]);
    }
  }

  lemma {:induction false} LexLeAntisymmetric(a: string, b: string)
    requires LexLe(a, b) && LexLe(b, a)
    ensures a == b
    decreases |a|
  {
    if a != [] {
      LexLeAntisymmetric(a[1..], b[1..]);
      assert a == [a[0]] + a[1..] && b == [b[0]] + b[1..];
    }
  }
}
