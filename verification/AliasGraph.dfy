/**
 The head-word graph of an alias table: every alias points at the first word of its
 expansion. Expansion follows it as long as head words hold no placeholder.
 */
module AliasGraph {
  import opened Wrappers
  import opened Expansion

  /** The first word of an expansion, if it has one. */
  function HeadWord(expansion: Reading): Option<string> {
    match expansion
    case Err(_) => None
    case Ok(words) => if words == [] then None else Some(words[0])
  }

  /** Alias to head word; an expansion that cannot be read, or is empty, has no edge. */
  function Graph(table: Table): (g: map<string, string>)
    ensures forall h | h in g :: h in table && HeadWord(table[h]) == Some(g[h])
  {
    map h | h in table && HeadWord(table[h]).Some? :: HeadWord(table[h]).value
  }

  /** Where `n` edges lead from `h`. */
  function Walk(g: map<string, string>, h: string, n: nat): Option<string>
    decreases n
  {
    if n == 0 then Some(h)
    else if h !in g then None
    else Walk(g, g[h], n - 1)
  }

  /** Following edges from `h` ends after exactly `n` of them. */
  predicate Exits(g: map<string, string>, h: string, n: nat)
    decreases n
  {
    if n == 0 then h !in g else h in g && Exits(g, g[h], n - 1)
  }

  ghost predicate Ends(g: map<string, string>, h: string) {
    exists n: nat :: Exits(g, h, n)
  }

  /** Every walk ends. */
  ghost predicate Grounded(g: map<string, string>) {
    forall h: string :: Ends(g, h)
  }

  /** No word leads back to itself. */
  ghost predicate Acyclic(g: map<string, string>) {
    forall h: string, n: nat | n > 0 :: Walk(g, h, n) != Some(h)
  }

  lemma {:induction false} ExitsOnce(g: map<string, string>, h: string, n: nat, m: nat)
    requires Exits(g, h, n) && Exits(g, h, m)
    ensures n == m
    decreases n
  {
    if n > 0 && m > 0 {
      ExitsOnce(g, g[h], n - 1, m - 1);
    }
  }

  /** The end of a walk is as far away, minus the edges already followed. */
  lemma {:induction false} ExitsAlong(g: map<string, string>, h: string, k: nat, n: nat)
    requires Exits(g, h, n) && Walk(g, h, k).Some?
    ensures k <= n && Exits(g, Walk(g, h, k).value, n - k)
    decreases k
  {
    if k > 0 {
      ExitsAlong(g, g[h], k - 1, n - 1);
    }
  }

  lemma {:induction false} WalkAppend(g: map<string, string>, h: string, i: nat, j: nat)
    requires Walk(g, h, i).Some?
    ensures Walk(g, h, i + j) == Walk(g, Walk(g, h, i).value, j)
    decreases i
  {
    if i > 0 {
      WalkAppend(g, g[h], i - 1, j);
    }
  }

  lemma GroundedIsAcyclic(g: map<string, string>)
    requires Grounded(g)
    ensures Acyclic(g)
  {
    forall h: string, n: nat | n > 0
      ensures Walk(g, h, n) != Some(h)
    {
      assert Ends(g, h);
      var m: nat :| Exits(g, h, m);
      if Walk(g, h, n) == Some(h) {
        ExitsAlong(g, h, n, m);
        ExitsOnce(g, h, m, m - n);
      }
    }
  }

  /** The words a walk of `n` edges passes, in order. */
  function Path(g: map<string, string>, h: string, n: nat): (p: seq<string>)
    ensures |p| == n
    decreases n
  {
    if n == 0 then []
    else [h] + (if h in g then Path(g, g[h], n - 1) else seq(n - 1, _ => ""))
  }

  lemma {:induction false} PathIsWalk(g: map<string, string>, h: string, n: nat, i: nat)
    requires i < n && Walk(g, h, n).Some?
    ensures Walk(g, h, i) == Some(Path(g, h, n)[i])
    ensures Path(g, h, n)[i] in g
    decreases n
  {
    if i > 0 {
      PathIsWalk(g, g[h], n - 1, i - 1);
    }
  }

  lemma {:induction false} LongerThanItsAlphabet(p: seq<string>, alphabet: set<string>)
    requires forall w | w in p :: w in alphabet
    requires forall i, j | 0 <= i < j < |p| :: p[i] != p[j]
    ensures |p| <= |alphabet|
  {
    if p != [] {
      var last := p[|p| - 1];
      assert last in p;
      forall w | w in p[..|p| - 1] ensures w in alphabet - {last} {
        assert w in p;
      }
      LongerThanItsAlphabet(p[..|p| - 1], alphabet - {last});
    }
  }

  /** A walk that goes on for longer than the graph has edges comes back to some word. */
  lemma LongWalkRepeats(g: map<string, string>, h: string) returns (i: nat, j: nat)
    requires Walk(g, h, |g| + 1).Some?
    ensures i < j && Walk(g, h, j).Some? && Walk(g, h, i) == Walk(g, h, j)
  {
    var n := |g| + 1;
    var p := Path(g, h, n);
    forall k | 0 <= k < n ensures Walk(g, h, k) == Some(p[k]) && p[k] in g.Keys {
      PathIsWalk(g, h, n, k);
    }
    assert |g.Keys| == |g|;
    if forall i, j | 0 <= i < j < n :: p[i] != p[j] {
      LongerThanItsAlphabet(p, g.Keys);
      assert false;
    }
    i, j :| 0 <= i < j < n && p[i] == p[j];
  }

  lemma {:induction false} WalkOrExit(g: map<string, string>, h: string, n: nat) returns (m: nat)
    ensures Walk(g, h, n).Some? || Exits(g, h, m)
    decreases n
  {
    if n == 0 || h !in g {
      m := 0;
    } else {
      m := WalkOrExit(g, g[h], n - 1);
      m := m + 1;
    }
  }

  /** Having no cycle and every walk ending are the same thing. */
  lemma AcyclicIffGrounded(g: map<string, string>)
    ensures Acyclic(g) <==> Grounded(g)
  {
    if Grounded(g) {
      GroundedIsAcyclic(g);
    }
    if Acyclic(g) {
      forall h: string ensures Ends(g, h) {
        var m := WalkOrExit(g, h, |g| + 1);
        if Walk(g, h, |g| + 1).Some? {
          var i, j := LongWalkRepeats(g, h);
          WalkAppend(g, h, i, j - i);
          assert false;
        }
      }
    }
  }

  /**
   Changing one word's edge, so that walks from that word end, leaves every walk ending.
   */
  lemma {:induction false} ExitsAfterChange(g: map<string, string>, g': map<string, string>, name: string, m: nat,
                                            h: string, n: nat) returns (n': nat)
    requires forall k | k != name :: (k in g <==> k in g') && (k in g ==> g[k] == g'[k])
    requires Exits(g', name, m)
    requires Exits(g, h, n)
    ensures Exits(g', h, n')
    decreases n
  {
    if h == name {
      n' := m;
    } else if n == 0 {
      n' := 0;
    } else {
      n' := ExitsAfterChange(g, g', name, m, g[h], n - 1);
      n' := n' + 1;
    }
  }

  lemma GroundedAfterChange(g: map<string, string>, g': map<string, string>, name: string, m: nat)
    requires forall k | k != name :: (k in g <==> k in g') && (k in g ==> g[k] == g'[k])
    requires Exits(g', name, m)
    requires Grounded(g)
    ensures Grounded(g')
  {
    forall h: string ensures Ends(g', h) {
      assert Ends(g, h);
      var n: nat :| Exits(g, h, n);
      var n' := ExitsAfterChange(g, g', name, m, h, n);
    }
  }
}
