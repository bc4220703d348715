/**
 * Splitting a variable list on commas with the semantics of Java's
 * `String.split(",")`: pieces are not trimmed, trailing empty pieces are
 * dropped, and a string without a comma is returned whole (even when empty).
 */
module VarList {

  /** Every piece of s between commas, in order, empty pieces included. */
  function SplitAll(s: string): (parts: seq<string>)
    ensures |parts| >= 1
    decreases |s|
  {
    if s == [] then [[]]
    else
      var rest := SplitAll(s[1..]);
      if s[0] == ',' then [[]] + rest else [[s[0]] + rest[0]] + rest[1..]
  }

  /** The pieces glued back together with commas between them. */
  function JoinCommas(parts: seq<string>): string
    decreases |parts|
  {
    if parts == [] then []
    else if |parts| == 1 then parts[0]
    else parts[0] + [','] + JoinCommas(parts[1..])
  }

  predicate NoComma(parts: seq<string>) {
    forall i :: 0 <= i < |parts| ==> ',' !in parts[i]
  }

  /** Splitting loses nothing: the pieces hold no comma and join back into s. */
  lemma {:induction false} JoinSplitAll(s: string)
    ensures NoComma(SplitAll(s))
    ensures JoinCommas(SplitAll(s)) == s
    decreases |s|
  {
    if s != [] {
      JoinSplitAll(s[1..]);
      var rest := SplitAll(s[1..]);
      if s[0] == ',' {
        assert ([[]] + rest)[1..] == rest;
      } else {
        var parts := SplitAll(s);
        assert parts[1..] == rest[1..];
        if |rest| == 1 {
          assert JoinCommas(parts) == [s[0]] + rest[0];
        } else {
          assert rest == [rest[0]] + rest[1..];
          assert JoinCommas(rest) == rest[0] + [','] + JoinCommas(rest[1..]);
        }
        assert JoinCommas(parts) == [s[0]] + JoinCommas(rest);
        forall i | 0 <= i < |parts| ensures ',' !in parts[i] {
          if i > 0 {
            assert parts[i] == rest[i];
          }
        }
      }
      assert s == [s[0]] + s[1..];
    }
  }

  /** Splitting undoes joining, when no piece holds a comma. */
  lemma {:induction false} SplitAllJoin(parts: seq<string>)
    requires |parts| >= 1 && NoComma(parts)
    ensures SplitAll(JoinCommas(parts)) == parts
    decreases |parts|, |parts[0]|
  {
    var p := parts[0];
    if p != [] {
      // peel the first character off the first piece
      var parts' := [p[1..]] + parts[1..];
      assert ',' !in p[1..] by {
        assert forall k :: 0 <= k < |p| - 1 ==> p[1..][k] == p[k + 1];
      }
      assert NoComma(parts') by {
        forall i | 0 <= i < |parts'| ensures ',' !in parts'[i] {
          if i > 0 {
            assert parts'[i] == parts[i];
          }
        }
      }
      SplitAllJoin(parts');
      var s := JoinCommas(parts);
      assert parts'[1..] == parts[1..];
      if |parts| == 1 {
        assert s == [p[0]] + JoinCommas(parts');
      } else {
        assert s == [p[0]] + (p[1..] + [','] + JoinCommas(parts[1..]));
        assert s == [p[0]] + JoinCommas(parts');
      }
      assert s[0] == p[0] && s[1..] == JoinCommas(parts');
      assert p[0] != ',' by {
        assert p[0] == parts[0][0];
      }
      assert [p[0]] + p[1..] == p;
    } else if |parts| > 1 {
      var s := JoinCommas(parts);
      assert NoComma(parts[1..]) by {
        forall i | 0 <= i < |parts| - 1 ensures ',' !in parts[1..][i] {
          assert parts[1..][i] == parts[i + 1];
        }
      }
      SplitAllJoin(parts[1..]);
      assert s == [','] + JoinCommas(parts[1..]);
      assert s[1..] == JoinCommas(parts[1..]);
      assert parts == [[]] + parts[1..];
    }
  }

  /** parts with its trailing empty pieces removed. */
  function DropTrailingEmpty(parts: seq<string>): (r: seq<string>)
    ensures r <= parts
    ensures r == [] || r[|r| - 1] != []
    ensures forall i :: |r| <= i < |parts| ==> parts[i] == []
    decreases |parts|
  {
    if parts == [] || parts[|parts| - 1] != [] then parts
    else DropTrailingEmpty(parts[..|parts| - 1])
  }

  /** `s.split(",")` in Java. */
  function JavaSplit(s: string): seq<string> {
    if ',' !in s then [s] else DropTrailingEmpty(SplitAll(s))
  }

  /**
   * What Java's split returns: a string without a comma comes back whole;
   * otherwise the comma-separated pieces, in order and untrimmed, up to the
   * last non-empty one. No piece holds a comma.
   */
  lemma JavaSplitCharacterised(s: string)
    ensures NoComma(JavaSplit(s))
    ensures ',' !in s ==> JavaSplit(s) == [s]
    ensures ',' in s ==>
      var r := JavaSplit(s);
      && r <= SplitAll(s)
      && (r == [] || r[|r| - 1] != [])
      && forall i :: |r| <= i < |SplitAll(s)| ==> SplitAll(s)[i] == []
  {
    if ',' in s {
      assert NoComma(SplitAll(s)) by {
        JoinSplitAll(s);
      }
      NoCommaPrefix(DropTrailingEmpty(SplitAll(s)), SplitAll(s));
    }
  }

  lemma NoCommaPrefix(r: seq<string>, parts: seq<string>)
    requires r <= parts && NoComma(parts)
    ensures NoComma(r)
  {
    assert forall i :: 0 <= i < |r| ==> r[i] == parts[i];
  }

  /** Comma-free names whose last one is not empty are split back into exactly those names. */
  lemma JavaSplitJoin(names: seq<string>)
    requires |names| >= 1 && NoComma(names)
    requires |names| > 1 ==> names[|names| - 1] != []
    ensures JavaSplit(JoinCommas(names)) == names
  {
    if |names| > 1 {
      assert JoinCommas(names) == names[0] + [','] + JoinCommas(names[1..]);
      assert JoinCommas(names)[|names[0]|] == ',';
      SplitAllJoin(names);
    }
  }
}
