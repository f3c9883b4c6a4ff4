/**
 The handful of Python string operations the cogs rely on, written out over
 `seq<char>`: `sub in s`, `s.split(sep)` with a single-character separator
 (empty fields are kept), and `template.format(...)` restricted to automatically
 numbered `{}` replacement fields; plus `Join`, the inverse of `Split` used to
 state the round trip.
 */
module Text {

  /** `sub` occurs in `s` starting at index `i`. */
  predicate OccursAt(s: string, sub: string, i: int) {
    0 <= i <= |s| - |sub| && s[i..i + |sub|] == sub
  }

  /** Python's `sub in s` for two strings. */
  predicate Contains(s: string, sub: string) {
    exists i :: 0 <= i <= |s| - |sub| && OccursAt(s, sub, i)
  }

  /** A string without the separator holds no occurrence of any string that has it. */
  lemma NoSepNoContains(s: string, sub: string, sep: char)
    requires sep !in s && sep in sub
    ensures !Contains(s, sub)
  {
    var k :| 0 <= k < |sub| && sub[k] == sep;
    forall i | 0 <= i <= |s| - |sub|
      ensures !OccursAt(s, sub, i)
    {
      assert s[i..i + |sub|][k] == s[i + k];
      NotSepAt(s, sep, i + k);
    }
  }

  // ---------------------------------------------------------------------------
  // str.split with one separator character

  /**
   `s.split(sep)`: the fields between separators, empty ones included; a string
   without the separator is one field, and the empty string gives `[""]`.
   */
  function Split(s: string, sep: char): (fields: seq<string>)
    ensures |fields| >= 1
    ensures forall f :: f in fields ==> sep !in f
    decreases |s|
  {
    if |s| == 0 then [""]
    else
      var rest := Split(s[1..], sep);
      if s[0] == sep then [""] + rest
      else [[s[0]] + rest[0]] + rest[1..]
  }

  /** `sep.join(fields)`: the fields with one separator between neighbours. */
  function Join(fields: seq<string>, sep: char): string {
    if |fields| == 0 then ""
    else if |fields| == 1 then fields[0]
    else fields[0] + [sep] + Join(fields[1..], sep)
  }

  /** Putting the separators back reproduces the split string. */
  lemma {:induction false} JoinSplit(s: string, sep: char)
    ensures Join(Split(s, sep), sep) == s
    decreases |s|
  {
    if |s| > 0 {
      var rest := Split(s[1..], sep);
      JoinSplit(s[1..], sep);
      if s[0] == sep {
        assert Split(s, sep) == [""] + rest;
        if |rest| == 1 {
          assert Join(Split(s, sep), sep) == "" + [sep] + rest[0];
        } else {
          assert Join(Split(s, sep), sep) == "" + [sep] + Join(rest, sep);
        }
        assert [s[0]] + s[1..] == s;
      } else {
        JoinConsChar(s[0], rest, sep);
        assert [s[0]] + s[1..] == s;
      }
    }
  }

  /** Prepending a character to the first field prepends it to the joined string. */
  lemma JoinConsChar(c: char, fields: seq<string>, sep: char)
    requires |fields| >= 1
    ensures Join([[c] + fields[0]] + fields[1..], sep) == [c] + Join(fields, sep)
  {
    var fs := [[c] + fields[0]] + fields[1..];
    if |fields| > 1 {
      assert fs[1..] == fields[1..];
      assert Join(fs, sep) == ([c] + fields[0]) + [sep] + Join(fields[1..], sep);
    }
  }

  /** A string without the separator is a single field. */
  lemma {:induction false} SplitNoSep(t: string, sep: char)
    requires sep !in t
    ensures Split(t, sep) == [t]
    decreases |t|
  {
    if |t| > 0 {
      SplitNoSep(t[1..], sep);
      assert [t[0]] + t[1..] == t;
    }
  }

  /** A separator-free field followed by the separator splits off as the first field. */
  lemma {:induction false} SplitAfterField(t: string, s: string, sep: char)
    requires sep !in t
    ensures Split(t + [sep] + s, sep) == [t] + Split(s, sep)
    decreases |t|
  {
    if |t| == 0 {
      assert t + [sep] + s == [sep] + s;
      assert (t + [sep] + s)[1..] == s;
    } else {
      var u := t + [sep] + s;
      assert u[1..] == t[1..] + [sep] + s;
      SplitAfterField(t[1..], s, sep);
      assert [t[0]] + t[1..] == t;
    }
  }

  /** Splitting a join of separator-free fields gives the fields back. */
  lemma {:induction false} SplitJoin(fields: seq<string>, sep: char)
    requires |fields| >= 1
    requires forall f :: f in fields ==> sep !in f
    ensures Split(Join(fields, sep), sep) == fields
    decreases |fields|
  {
    if |fields| == 1 {
      SplitNoSep(fields[0], sep);
    } else {
      assert fields[0] in fields;
      assert forall f :: f in fields[1..] ==> f in fields;
      SplitJoin(fields[1..], sep);
      SplitAfterField(fields[0], Join(fields[1..], sep), sep);
      assert [fields[0]] + fields[1..] == fields;
    }
  }

  /** `w` occurs in `s` at index `i`, bounded on each side by an end of `s` or a separator. */
  predicate FieldAt(s: string, sep: char, w: string, i: int) {
    OccursAt(s, w, i)
    && (i == 0 || s[i - 1] == sep)
    && (i + |w| == |s| || s[i + |w|] == sep)
  }

  /** `w` occurs in `s` as a whole field. */
  predicate IsField(s: string, sep: char, w: string) {
    exists i :: 0 <= i <= |s| - |w| && FieldAt(s, sep, w, i)
  }

  /**
   Membership in the split is exactly whole-field occurrence: a separator-free
   word is one of the fields of `s` if and only if it stands in `s` between two
   separators (or the ends of `s`).
   */
  lemma FieldIff(s: string, sep: char, w: string)
    requires sep !in w
    ensures w in Split(s, sep) <==> IsField(s, sep, w)
  {
    var fields := Split(s, sep);
    JoinSplit(s, sep);
    InJoinIff(fields, sep, w);
  }

  /** Every position of a separator-free string holds some other character. */
  lemma NotSepAt(t: string, sep: char, p: int)
    requires sep !in t
    ensures 0 <= p < |t| ==> t[p] != sep
  {
    if 0 <= p < |t| {
      assert t[p] in t;
    }
  }

  /** In a separator-free string the only whole field is the string itself. */
  lemma FieldOfNoSep(t: string, sep: char, w: string)
    requires sep !in t
    ensures IsField(t, sep, w) <==> w == t
  {
    if w == t {
      assert FieldAt(t, sep, w, 0);
    }
    if IsField(t, sep, w) {
      var i :| 0 <= i <= |t| - |w| && FieldAt(t, sep, w, i);
      NotSepAt(t, sep, i - 1);
      NotSepAt(t, sep, i + |w|);
      assert i == 0 && i + |w| == |t|;
      assert t[0..|t|] == t;
    }
  }

  /** The whole fields of `t + sep + j` are `t` and the whole fields of `j`. */
  lemma FieldOfCons(t: string, j: string, sep: char, w: string)
    requires sep !in t && sep !in w
    ensures IsField(t + [sep] + j, sep, w) <==> w == t || IsField(j, sep, w)
  {
    var s := t + [sep] + j;
    if w == t {
      assert s[0..|w|] == t;
      assert FieldAt(s, sep, w, 0);
    }
    if IsField(j, sep, w) {
      FieldOfTail(t, j, sep, w);
    }
    if IsField(s, sep, w) {
      var i :| 0 <= i <= |s| - |w| && FieldAt(s, sep, w, i);
      if i <= |t| {
        FieldInHead(t, j, sep, w, i);
      } else {
        FieldInTail(t, j, sep, w, i);
      }
    }
  }

  /** A whole field of `j` is a whole field of `t + sep + j`. */
  lemma FieldOfTail(t: string, j: string, sep: char, w: string)
    requires IsField(j, sep, w)
    ensures IsField(t + [sep] + j, sep, w)
  {
    var s := t + [sep] + j;
    var off := |t| + 1;
    var i :| 0 <= i <= |j| - |w| && FieldAt(j, sep, w, i);
    assert s[off + i..off + i + |w|] == j[i..i + |w|];
    assert FieldAt(s, sep, w, off + i);
  }

  /** A whole field of `t + sep + j` that starts after the separator is a whole field of `j`. */
  lemma FieldInTail(t: string, j: string, sep: char, w: string, i: int)
    requires |t| < i && FieldAt(t + [sep] + j, sep, w, i)
    ensures IsField(j, sep, w)
  {
    var s := t + [sep] + j;
    var k := i - (|t| + 1);
    assert j[k..k + |w|] == s[i..i + |w|];
    assert FieldAt(j, sep, w, k);
  }

  /** A whole field of `t + sep + j` that starts inside `t` is `t`. */
  lemma FieldInHead(t: string, j: string, sep: char, w: string, i: int)
    requires sep !in t && sep !in w
    requires i <= |t| && FieldAt(t + [sep] + j, sep, w, i)
    ensures w == t
  {
    var s := t + [sep] + j;
    // the field cannot reach over the separator at |t|,
    // nor start or stop strictly inside `t`
    NotSepAt(w, sep, |t| - i);
    NotSepAt(t, sep, i - 1);
    NotSepAt(t, sep, i + |w|);
    assert i == 0 && i + |w| == |t|;
    assert s[0..|t|] == t;
  }

  lemma {:induction false} InJoinIff(fields: seq<string>, sep: char, w: string)
    requires |fields| >= 1
    requires forall f :: f in fields ==> sep !in f
    requires sep !in w
    ensures w in fields <==> IsField(Join(fields, sep), sep, w)
    decreases |fields|
  {
    var t := fields[0];
    assert t in fields;
    if |fields| == 1 {
      FieldOfNoSep(t, sep, w);
    } else {
      var rest := fields[1..];
      assert forall f :: f in rest ==> f in fields;
      InJoinIff(rest, sep, w);
      FieldOfCons(t, Join(rest, sep), sep, w);
      assert fields == [t] + rest;
    }
  }

  /** The first field is the prefix of `s` up to the first separator, or all of `s`. */
  lemma {:induction false} SplitHead(s: string, sep: char)
    ensures var h := Split(s, sep)[0];
      |h| <= |s| && h == s[..|h|] && (|h| == |s| || s[|h|] == sep)
    decreases |s|
  {
    if |s| > 0 && s[0] != sep {
      SplitHead(s[1..], sep);
    }
  }

  /** The split has at least two fields exactly when the separator occurs. */
  lemma SplitCount(s: string, sep: char)
    ensures |Split(s, sep)| >= 2 <==> sep in s
  {
    var fields := Split(s, sep);
    JoinSplit(s, sep);
    if |fields| == 1 {
      assert fields[0] in fields;
    } else {
      assert Join(fields, sep) == fields[0] + [sep] + Join(fields[1..], sep);
      assert s[|fields[0]|] == sep;
    }
  }

  // ---------------------------------------------------------------------------
  // str.format with automatically numbered `{}` fields

  /** Number of `{}` replacement fields, read left to right. */
  function Holes(t: string): nat {
    if |t| < 2 then 0
    else if t[0] == '{' && t[1] == '}' then 1 + Holes(t[2..])
    else Holes(t[1..])
  }

  /**
   `t.format(*args)`: each `{}` in turn replaced by the next argument, every
   other character copied. Python raises when there are fewer arguments than
   fields; the precondition excludes that.
   */
  function Format(t: string, args: seq<string>): (r: string)
    requires Holes(t) <= |args|
    ensures Holes(t) == 0 ==> r == t
  {
    if |t| < 2 then t
    else if t[0] == '{' && t[1] == '}' then args[0] + Format(t[2..], args[1..])
    else [t[0]] + Format(t[1..], args)
  }

  /** A text without `{` holds no replacement field. */
  lemma {:induction false} NoBraceNoHoles(t: string)
    requires '{' !in t
    ensures Holes(t) == 0
    decreases |t|
  {
    if |t| >= 2 {
      assert t[0] in t;
      assert forall c :: c in t[1..] ==> c in t;
      NoBraceNoHoles(t[1..]);
    }
  }

  /**
   Filling a template `a + "{}" + b` whose text before the field has no brace:
   the first argument lands exactly between `a` and `b`.
   */
  lemma FormatFill(a: string, b: string, x: string, rest: seq<string>)
    requires '{' !in a
    requires Holes(b) <= |rest|
    ensures Holes(a + "{}" + b) == 1 + Holes(b)
    ensures Format(a + "{}" + b, [x] + rest) == a + x + Format(b, rest)
  {
    var t := "{}" + b;
    FormatHole(b, x, rest);
    FormatPrefix(a, t, [x] + rest);
    assert a + "{}" + b == a + t;
    assert a + (x + Format(b, rest)) == a + x + Format(b, rest);
  }

  /** A field at the very start takes the first argument. */
  lemma FormatHole(b: string, x: string, rest: seq<string>)
    requires Holes(b) <= |rest|
    ensures Holes("{}" + b) == 1 + Holes(b)
    ensures Format("{}" + b, [x] + rest) == x + Format(b, rest)
  {
    var t := "{}" + b;
    assert t[0] == '{' && t[1] == '}' && t[2..] == b;
    assert ([x] + rest)[0] == x && ([x] + rest)[1..] == rest;
  }

  /** A brace-free prefix is copied and holds no field. */
  lemma {:induction false} FormatPrefix(a: string, t: string, args: seq<string>)
    requires '{' !in a && Holes(t) <= |args|
    ensures Holes(a + t) == Holes(t)
    ensures Format(a + t, args) == a + Format(t, args)
    decreases |a|
  {
    if |a| == 0 {
      assert a + t == t;
      assert a + Format(t, args) == Format(t, args);
    } else {
      var a1 := a[1..];
      assert a[0] in a;
      assert forall c :: c in a1 ==> c in a;
      FormatPrefix(a1, t, args);
      assert a + t == [a[0]] + (a1 + t);
      FormatCons(a[0], a1 + t, args);
      assert [a[0]] + (a1 + Format(t, args)) == a + Format(t, args);
    }
  }

  /** A leading character other than `{` is copied and starts no field. */
  lemma FormatCons(c: char, t: string, args: seq<string>)
    requires c != '{' && Holes(t) <= |args|
    ensures Holes([c] + t) == Holes(t)
    ensures Format([c] + t, args) == [c] + Format(t, args)
  {
    assert ([c] + t)[1..] == t;
  }

  /** A template with one placeholder and no other brace: the argument fills the placeholder. */
  lemma FormatOne(a: string, b: string, x: string)
    requires '{' !in a && '{' !in b
    ensures Holes(a + "{}" + b) == 1
    ensures Format(a + "{}" + b, [x]) == a + x + b
  {
    NoBraceNoHoles(b);
    FormatFill(a, b, x, []);
    assert [x] + [] == [x];
  }

  /** A template with two placeholders and no other brace: the arguments fill them in order. */
  lemma FormatTwo(a: string, b: string, c: string, x: string, y: string)
    requires '{' !in a && '{' !in b && '{' !in c
    ensures Holes(a + "{}" + b + "{}" + c) == 2
    ensures Format(a + "{}" + b + "{}" + c, [x, y]) == a + x + b + y + c
  {
    var bc := b + "{}" + c;
    FormatOne(b, c, y);
    assert a + "{}" + b + "{}" + c == a + "{}" + bc;
    FormatFill(a, bc, x, [y]);
    assert [x] + [y] == [x, y];
    assert a + x + (b + y + c) == a + x + b + y + c;
  }
}
