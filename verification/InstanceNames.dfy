/** Directories that parse instance names component by component, and the
    identifiers by which their nodes are told apart. */
module InstanceNames {
  import opened Wrappers
  import opened ByteStrings

  type InstanceNamePath = seq<Bytes>

  function Terminated(p: InstanceNamePath): Bytes {
    if p == [] then [] else Terminated(p[..|p| - 1]) + p[|p| - 1] + [SLASH]
  }

  /** Every component is terminated by a slash, and so is the list as a whole. */
  function Identifier(p: InstanceNamePath): Bytes {
    Terminated(p) + [SLASH]
  }

  class Writer {
    var contents: Bytes

    constructor ()
      ensures contents == []
    {
      contents := [];
    }

    method Write(p: Bytes) returns (n: nat)
      modifies this
      ensures contents == old(contents) + p && n == |p|
    {
      contents := contents + p;
      n := |p|;
    }
  }

  /** Emit a path as an identifier. */
  method WriteTo(p: InstanceNamePath, w: Writer) returns (nTotal: nat)
    modifies w
    ensures w.contents == old(w.contents) + Identifier(p) && nTotal == |Identifier(p)|
  {
    nTotal := 0;
    for i := 0 to |p|
      invariant w.contents == old(w.contents) + Terminated(p[..i]) && nTotal == |Terminated(p[..i])|
    {
      assert p[..i + 1][..i] == p[..i];
      var n := w.Write(p[i]);
      nTotal := nTotal + n;
      n := w.Write([SLASH]);
      nTotal := nTotal + n;
      assert old(w.contents) + Terminated(p[..i]) + p[i] + [SLASH] == old(w.contents) + Terminated(p[..i + 1]);
    }
    assert p[..|p|] == p;
    var n := w.Write([SLASH]);
    nTotal := nTotal + n;
    assert old(w.contents) + Terminated(p) + [SLASH] == old(w.contents) + Identifier(p);
  }

  /** A slash follows every component, and another one ends the identifier. */
  lemma IdentifierBytes(a: Bytes, b: Bytes)
    ensures Identifier([]) == [0x2F]
    ensures Identifier([a]) == a + [0x2F, 0x2F]
    ensures Identifier([a, b]) == a + [0x2F] + b + [0x2F, 0x2F]
  {
    assert [a][..0] == [] && [a, b][..1] == [a];
    assert Terminated([a]) == a + [0x2F];
    assert Terminated([a, b]) == a + [0x2F] + b + [0x2F];
  }

  // Reading identifiers back.

  function UntilSlash(s: Bytes): (n: nat)
    ensures n <= |s| && SLASH !in s[..n] && (n < |s| ==> s[n] == SLASH)
  {
    if s == [] || s[0] == SLASH then 0
    else
      var n := UntilSlash(s[1..]);
      assert s[..n + 1] == [s[0]] + s[1..][..n];
      n + 1
  }

  /** The path at the front of a string, and the length of its identifier. */
  function Parse(s: Bytes): (r: Option<(InstanceNamePath, nat)>)
    ensures r.Some? ==> r.value.1 <= |s| && WellFormed(r.value.0)
  {
    if s == [] then None
    else if s[0] == SLASH then Some(([], 1))
    else
      var n := UntilSlash(s);
      if n == |s| then None
      else
        match Parse(s[n + 1..])
        case None => None
        case Some((p, length)) => Some(([s[..n]] + p, n + 1 + length))
  }

  /** Components as they can occur in an instance name. */
  predicate WellFormed(p: InstanceNamePath) {
    forall i :: 0 <= i < |p| ==> p[i] != [] && SLASH !in p[i]
  }

  lemma {:induction false} TerminatedFirst(p: InstanceNamePath)
    requires p != []
    ensures Terminated(p) == p[0] + [SLASH] + Terminated(p[1..])
  {
    var n := |p| - 1;
    if n > 0 {
      TerminatedFirst(p[..n]);
      assert p[..n][1..] == p[1..][..n - 1];
    }
  }

  lemma {:induction false} UntilSlashStops(a: Bytes, rest: Bytes)
    requires SLASH !in a
    ensures UntilSlash(a + [SLASH] + rest) == |a|
  {
    if a != [] {
      assert (a + [SLASH] + rest)[1..] == a[1..] + [SLASH] + rest;
      UntilSlashStops(a[1..], rest);
    }
  }

  lemma ParseStep(c: Bytes, tail: Bytes)
    requires c != [] && SLASH !in c
    ensures var s := c + [SLASH] + tail;
            Parse(s) == match Parse(tail)
                        case None => None
                        case Some((p, length)) => Some(([c] + p, |c| + 1 + length))
  {
    var s := c + [SLASH] + tail;
    UntilSlashStops(c, tail);
    assert s[0] == c[0] && c[0] in c;
    assert s[|c| + 1..] == tail && s[..|c|] == c;
  }

  lemma FirstComponent(p: InstanceNamePath, rest: Bytes)
    requires p != []
    ensures Identifier(p) + rest == p[0] + [SLASH] + (Identifier(p[1..]) + rest)
    ensures |Identifier(p)| == |p[0]| + 1 + |Identifier(p[1..])|
  {
    TerminatedFirst(p);
  }

  lemma ParseEnd(rest: Bytes)
    ensures Parse(Identifier([]) + rest) == Some(([], |Identifier([])|))
  {
    assert (Identifier([]) + rest)[0] == SLASH;
  }

  lemma {:induction false} ParseFindsPath(p: InstanceNamePath, rest: Bytes)
    requires WellFormed(p)
    ensures Parse(Identifier(p) + rest) == Some((p, |Identifier(p)|))
  {
    hide Parse, Identifier;
    if p == [] {
      ParseEnd(rest);
    } else {
      var tail := p[1..];
      assert p == [p[0]] + tail;
      FirstComponent(p, rest);
      ParseStep(p[0], Identifier(tail) + rest);
      ParseFindsPath(tail, rest);
    }
  }

  // Identifiers of paths of any kind.

  lemma {:induction false} ParseIsIdentifier(s: Bytes)
    requires Parse(s).Some?
    ensures Identifier(Parse(s).value.0) == s[..Parse(s).value.1]
  {
    if s[0] != SLASH {
      var n := UntilSlash(s);
      var (p, length) := Parse(s[n + 1..]).value;
      ParseIsIdentifier(s[n + 1..]);
      IdentifierCons(s[..n], p);
      assert s[..n + 1 + length] == s[..n] + [SLASH] + s[n + 1..][..length];
    }
  }

  lemma IdentifierCons(c: Bytes, p: InstanceNamePath)
    ensures Identifier([c] + p) == c + [SLASH] + Identifier(p)
  {
    TerminatedFirst([c] + p);
    assert ([c] + p)[1..] == p;
  }

  lemma {:induction false} UntilSlashAtMost(s: Bytes, k: nat)
    requires k < |s| && s[k] == SLASH
    ensures UntilSlash(s) <= k
  {
    if s[0] != SLASH {
      UntilSlashAtMost(s[1..], k - 1);
    }
  }

  lemma {:induction false} TerminatedParses(t: Bytes)
    requires t != [] ==> t[|t| - 1] == SLASH
    ensures Parse(t + [SLASH]).Some?
  {
    var s := t + [SLASH];
    if t != [] && t[0] != SLASH {
      var n := UntilSlash(s);
      UntilSlashAtMost(s, |t| - 1);
      assert s[n + 1..] == t[n + 1..] + [SLASH];
      TerminatedParses(t[n + 1..]);
    }
  }

  /** The paths of which the identifier collides with that of a path of proper
      components, or has it as a prefix, are exactly those that have an empty
      component or one that contains a slash. */
  lemma IdentifierClashesExactly(p: InstanceNamePath)
    ensures (exists q :: WellFormed(q) && q != p && Identifier(q) <= Identifier(p)) <==> !WellFormed(p)
  {
    if WellFormed(p) {
      forall q | WellFormed(q) && Identifier(q) <= Identifier(p) ensures q == p {
        IdentifiersArePrefixFree(q, p);
      }
    } else {
      TerminatedParses(Terminated(p));
      ParseIsIdentifier(Identifier(p));
      var q := Parse(Identifier(p)).value.0;
      assert WellFormed(q) && q != p && Identifier(q) <= Identifier(p);
    }
  }

  /** No identifier of a path is a prefix of that of a different one. */
  lemma IdentifiersArePrefixFree(p: InstanceNamePath, q: InstanceNamePath)
    requires WellFormed(p) && WellFormed(q) && Identifier(p) <= Identifier(q)
    ensures p == q
  {
    var rest := Identifier(q)[|Identifier(p)|..];
    assert Identifier(p) + rest == Identifier(q) + [];
    ParseFindsPath(p, rest);
    ParseFindsPath(q, []);
  }

  // The directories.

  datatype LookedUp = InstanceName(path: InstanceNamePath) | Directory(path: InstanceNamePath) | NoEnt

  /** A reserved keyword completes the instance name, if that is acceptable. Any
      other name extends it. */
  function VirtualLookup(reserved: set<Bytes>, accepts: InstanceNamePath -> bool, path: InstanceNamePath, name: Bytes): LookedUp {
    if name in reserved then
      if accepts(path) then InstanceName(path) else NoEnt
    else Directory(path + [name])
  }

  /** Look up a number of names in a row, starting at the root. */
  function Walk(reserved: set<Bytes>, accepts: InstanceNamePath -> bool, names: seq<Bytes>): LookedUp {
    if names == [] then Directory([])
    else
      match Walk(reserved, accepts, names[..|names| - 1])
      case Directory(path) => VirtualLookup(reserved, accepts, path, names[|names| - 1])
      case end => end
  }

  /** Position of the first reserved name, or the number of names. */
  function FirstReserved(reserved: set<Bytes>, names: seq<Bytes>): (n: nat)
    ensures n <= |names| && (n < |names| ==> names[n] in reserved)
    ensures forall i :: 0 <= i < n ==> names[i] !in reserved
  {
    if names == [] || names[0] in reserved then 0 else 1 + FirstReserved(reserved, names[1..])
  }

  /** A walk ends at the first reserved name. It yields all that came before that
      as an instance name, if that is acceptable. */
  lemma {:induction false} WalkYieldsNames(reserved: set<Bytes>, accepts: InstanceNamePath -> bool, names: seq<Bytes>)
    ensures var n := FirstReserved(reserved, names);
            Walk(reserved, accepts, names) ==
            if n == |names| then Directory(names)
            else if accepts(names[..n]) then InstanceName(names[..n])
            else NoEnt
  {
    if names != [] {
      var before := names[..|names| - 1];
      WalkYieldsNames(reserved, accepts, before);
      var n, m := FirstReserved(reserved, names), FirstReserved(reserved, before);
      assert m < |before| ==> before[m] == names[m];
      assert n < |before| ==> before[n] == names[n];
      assert n < |before| ==> m == n by {
        assert m < n ==> names[m] !in reserved;
      }
      assert before[..m] == names[..m];
      if n >= |before| {
        assert m == |before| && names[..m] == before;
        assert before + [names[|names| - 1]] == names;
      }
    }
  }

  predicate ValidNames(names: seq<Bytes>) {
    forall i :: 0 <= i < |names| ==> ValidComponent(names[i])
  }

  /** Directories reached along different paths have different identifiers, and
      none of them is a prefix of another one. */
  lemma ReachableDirectoriesAreDistinct(reserved: set<Bytes>, accepts: InstanceNamePath -> bool, a: seq<Bytes>, b: seq<Bytes>)
    requires ValidNames(a) && ValidNames(b)
    requires Walk(reserved, accepts, a).Directory? && Walk(reserved, accepts, b).Directory?
    ensures Identifier(Walk(reserved, accepts, a).path) <= Identifier(Walk(reserved, accepts, b).path) <==> a == b
  {
    WalkYieldsNames(reserved, accepts, a);
    WalkYieldsNames(reserved, accepts, b);
    if Identifier(a) <= Identifier(b) {
      assert forall i :: 0 <= i < |a| ==> ValidComponent(a[i]);
      IdentifiersArePrefixFree(a, b);
    }
  }
}
