/**
 * The target loader: the target file, already split into its lines (each
 * with its line terminator, as iterating over a text file yields them), is
 * turned into the list of hosts to probe.
 */
module Targets {
  import opened Text

  /** A line names a target iff it is not blank (its strip() is not empty,
      that is, it is not all whitespace) and its RAW text does not start
      with '#': "  # x" is kept (as "# x"), "# x" is dropped. */
  predicate Keeps(line: string) {
    !AllSpace(line) && !(|line| > 0 && line[0] == '#')
  }

  /** `load_targets`: every kept line, stripped, in file order, duplicates kept. */
  function LoadTargets(lines: seq<string>): (targets: seq<string>)
    ensures |targets| <= |lines|
    ensures forall t :: t in targets ==> t != [] && IsTrimmed(t)
  {
    if lines == [] then []
    else
      var rest := LoadTargets(lines[1..]);
      if Keeps(lines[0]) then [Strip(lines[0])] + rest else rest
  }

  /** The positions of the kept lines, in increasing order: the reference
      against which the loader is checked. */
  function KeptIndices(lines: seq<string>): (ix: seq<nat>)
    ensures forall k :: 0 <= k < |ix| ==> ix[k] < |lines|
    ensures forall k, l :: 0 <= k < l < |ix| ==> ix[k] < ix[l]
  {
    if lines == [] then []
    else
      var n := |lines| - 1;
      var init := KeptIndices(lines[..n]);
      if Keeps(lines[n]) then init + [n] else init
  }

  /** A position is listed by KeptIndices iff its line is kept. */
  lemma {:induction false} KeptIndicesExact(lines: seq<string>)
    ensures forall i :: 0 <= i < |lines| ==> (i in KeptIndices(lines) <==> Keeps(lines[i]))
  {
    if lines != [] {
      var n := |lines| - 1;
      var init := lines[..n];
      KeptIndicesExact(init);
      forall i | 0 <= i < |lines| ensures i in KeptIndices(lines) <==> Keeps(lines[i]) {
        assert n !in KeptIndices(init);
        if i < n { assert init[i] == lines[i]; }
      }
    }
  }

  /** Loading two files' worth of lines is loading each and concatenating. */
  lemma {:induction false} LoadTargetsAppend(a: seq<string>, b: seq<string>)
    ensures LoadTargets(a + b) == LoadTargets(a) + LoadTargets(b)
  {
    if a == [] {
      assert a + b == b;
    } else {
      assert (a + b)[0] == a[0] && (a + b)[1..] == a[1..] + b;
      LoadTargetsAppend(a[1..], b);
    }
  }

  /** The k-th target is the k-th kept line, stripped: so the loader keeps
      exactly the kept lines, in file order, with duplicates. */
  lemma {:induction false} LoadTargetsSelects(lines: seq<string>)
    ensures |LoadTargets(lines)| == |KeptIndices(lines)|
    ensures forall k :: 0 <= k < |LoadTargets(lines)| ==>
              LoadTargets(lines)[k] == Strip(lines[KeptIndices(lines)[k]])
  {
    if lines != [] {
      var n := |lines| - 1;
      var init := lines[..n];
      assert lines == init + [lines[n]];
      LoadTargetsAppend(init, [lines[n]]);
      LoadTargetsSelects(init);
      assert LoadTargets([lines[n]]) == if Keeps(lines[n]) then [Strip(lines[n])] else [];
      forall k | 0 <= k < |KeptIndices(init)|
        ensures init[KeptIndices(init)[k]] == lines[KeptIndices(init)[k]]
      {
      }
    }
  }

  /** Loading a file line by line: the first line contributes its stripped
      text when kept, nothing otherwise. */
  lemma LoadTargetsCons(line: string, rest: seq<string>)
    ensures LoadTargets([line] + rest)
            == (if Keeps(line) then [Strip(line)] else []) + LoadTargets(rest)
  {
    assert ([line] + rest)[1..] == rest;
  }

  /** Blank lines and comment lines vanish. */
  lemma LoadTargetsExample()
    ensures LoadTargets(["8.8.8.8\n", "\n", "# comment\n", "10.255.255.1\n"])
            == ["8.8.8.8", "10.255.255.1"]
  {
    var a, b, c, d := "8.8.8.8\n", "\n", "# comment\n", "10.255.255.1\n";
    HostLine();
    BlankLine();
    CommentLine();
    OtherHostLine();
    LoadTargetsCons(d, []);
    LoadTargetsCons(c, [d]);
    LoadTargetsCons(b, [c, d]);
    LoadTargetsCons(a, [b, c, d]);
    assert [a] + [b, c, d] == [a, b, c, d];
    assert [b] + [c, d] == [b, c, d];
    assert [c] + [d] == [c, d];
    assert [d] + [] == [d];
  }

  lemma HostLine()
    ensures Keeps("8.8.8.8\n") && Strip("8.8.8.8\n") == "8.8.8.8"
  {
    StripUnique("8.8.8.8\n", 0, 7);
  }

  lemma BlankLine()
    ensures !Keeps("\n")
  {
    assert IsSpace("\n"[0]);
  }

  lemma CommentLine()
    ensures !Keeps("# comment\n")
  {
  }

  lemma OtherHostLine()
    ensures Keeps("10.255.255.1\n") && Strip("10.255.255.1\n") == "10.255.255.1"
  {
    StripUnique("10.255.255.1\n", 0, 12);
  }

  /** A '#' after leading blanks does not make a comment; duplicates stay. */
  lemma LoadTargetsKeepsIndentedHash()
    ensures LoadTargets(["  # x\n", "8.8.8.8", "8.8.8.8"]) == ["# x", "8.8.8.8", "8.8.8.8"]
  {
    var e, f := "  # x\n", "8.8.8.8";
    IndentedHashLine();
    BareHostLine();
    LoadTargetsCons(f, []);
    LoadTargetsCons(f, [f]);
    LoadTargetsCons(e, [f, f]);
    assert [e] + [f, f] == [e, f, f];
    assert [f] + [f] == [f, f];
    assert [f] + [] == [f];
  }

  lemma IndentedHashLine()
    ensures Keeps("  # x\n") && Strip("  # x\n") == "# x"
  {
    StripUnique("  # x\n", 2, 5);
  }

  lemma BareHostLine()
    ensures Keeps("8.8.8.8") && Strip("8.8.8.8") == "8.8.8.8"
  {
    StripUnique("8.8.8.8", 0, 7);
  }
}
