/**
 * Splitting text into fields on a separator character, as Swift's
 * `split(separator:)` does with its defaults: no limit on the number of
 * splits, and empty fields (from a leading, trailing or doubled separator)
 * left out of the result.
 */
module Fields {

  /** The length of the longest prefix of `s` that holds no `sep`. */
  function FieldLength(s: string, sep: char): (n: nat)
    ensures n <= |s|
    ensures forall i :: 0 <= i < n ==> s[i] != sep
    ensures n < |s| ==> s[n] == sep
  {
    if s == [] || s[0] == sep then 0 else 1 + FieldLength(s[1..], sep)
  }

  /** The non-empty fields of `s` between occurrences of `sep`, in order. */
  function Split(s: string, sep: char): (r: seq<string>)
    ensures forall i :: 0 <= i < |r| ==> IsField(r[i], sep)
    decreases |s|
  {
    if s == [] then []
    else if s[0] == sep then Split(s[1..], sep)
    else
      var n := FieldLength(s, sep);
      assert IsField(s[..n], sep);
      [s[..n]] + Split(s[n..], sep)
  }

  /** The fields written out with one `sep` between neighbours; `SplitJoin` shows `Split` undoes it on fields. */
  function Join(fields: seq<string>, sep: char): string
  {
    if |fields| == 0 then []
    else if |fields| == 1 then fields[0]
    else fields[0] + [sep] + Join(fields[1..], sep)
  }

  /** A field that `Split` can return: non-empty and free of the separator. */
  predicate IsField(f: string, sep: char) {
    f != [] && sep !in f
  }

  /** `FieldLength` is determined by its contract. */
  lemma FieldLengthIs(s: string, sep: char, n: nat)
    requires n <= |s|
    requires forall i :: 0 <= i < n ==> s[i] != sep
    requires n < |s| ==> s[n] == sep
    ensures FieldLength(s, sep) == n
  {
  }

  /** A field followed by a separator (or by nothing) is the first piece. */
  lemma SplitCons(f: string, rest: string, sep: char)
    requires IsField(f, sep)
    requires rest == [] || rest[0] == sep
    ensures Split(f + rest, sep) == [f] + Split(rest, sep)
  {
    var s := f + rest;
    FieldLengthIs(s, sep, |f|);
    assert s[..|f|] == f;
    assert s[|f|..] == rest;
  }

  /** A single field splits to itself. */
  lemma SplitField(f: string, sep: char)
    requires IsField(f, sep)
    ensures Split(f, sep) == [f]
  {
    SplitCons(f, [], sep);
    assert f + [] == f;
  }

  /** A leading separator is skipped. */
  lemma SplitSkip(rest: string, sep: char)
    ensures Split([sep] + rest, sep) == Split(rest, sep)
  {
  }

  /** Splitting text made of two parts joined by a separator splits each part on its own. */
  lemma {:induction false} SplitAppend(x: string, y: string, sep: char)
    ensures Split(x + ([sep] + y), sep) == Split(x, sep) + Split(y, sep)
    decreases |x|
  {
    var s := x + ([sep] + y);
    if x == [] {
      assert s == [sep] + y;
      SplitSkip(y, sep);
    } else if x[0] == sep {
      assert s == [sep] + (x[1..] + ([sep] + y));
      assert x == [sep] + x[1..];
      SplitSkip(x[1..] + ([sep] + y), sep);
      SplitSkip(x[1..], sep);
      SplitAppend(x[1..], y, sep);
    } else {
      var n := FieldLength(x, sep);
      var f, r := x[..n], x[n..];
      assert IsField(f, sep);
      assert x == f + r;
      assert s == f + (r + ([sep] + y));
      SplitCons(f, r + ([sep] + y), sep);
      SplitCons(f, r, sep);
      SplitAppend(r, y, sep);
    }
  }

  /** Splitting joined fields gives back the same fields. */
  lemma {:induction false} SplitJoin(fields: seq<string>, sep: char)
    requires forall i :: 0 <= i < |fields| ==> IsField(fields[i], sep)
    ensures Split(Join(fields, sep), sep) == fields
  {
    if |fields| == 1 {
      SplitField(fields[0], sep);
    } else if |fields| > 1 {
      var rest := Join(fields[1..], sep);
      assert Join(fields, sep) == fields[0] + ([sep] + rest);
      SplitCons(fields[0], [sep] + rest, sep);
      SplitSkip(rest, sep);
      SplitJoin(fields[1..], sep);
    }
  }
}
