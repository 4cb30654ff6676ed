/** The token allowlist: a stored vector that behaves as a set. */
module Allowlist {
  import opened Ledger

  function Add(tokens: seq<Address>, token: Address): (seq<Address>, bool) {
    if token in tokens then (tokens, false) else (tokens + [token], true)
  }

  function Without(tokens: seq<Address>, token: Address): seq<Address> {
    if tokens == [] then []
    else
      var n := |tokens| - 1;
      Without(tokens[..n], token) + if tokens[n] != token then [tokens[n]] else []
  }

  function Remove(tokens: seq<Address>, token: Address): (seq<Address>, bool) {
    var kept := Without(tokens, token);
    if |kept| < |tokens| then (kept, true) else (tokens, false)
  }

  class Storage {
    // The stored vector; an absent one reads as empty.
    var stored: Option<seq<Address>>

    constructor ()
      ensures stored == None
    {
      stored := None;
    }

    function Tokens(): seq<Address>
      reads this
    {
      if stored.Some? then stored.value else []
    }

    method AddToAllowlist(token: Address) returns (changed: bool)
      modifies this
      ensures (Tokens(), changed) == Add(old(Tokens()), token)
      ensures !changed ==> stored == old(stored)
    {
      var tokens := Tokens();
      if token in tokens { return false; }
      tokens := tokens + [token];
      stored := Some(tokens);
      return true;
    }

    method RemoveFromAllowlist(token: Address) returns (changed: bool)
      modifies this
      ensures (Tokens(), changed) == Remove(old(Tokens()), token)
      ensures !changed ==> stored == old(stored)
    {
      var tokens := Tokens();
      var kept := [];
      for i := 0 to |tokens|
        invariant kept == Without(tokens[..i], token)
      {
        assert tokens[..i + 1][..i] == tokens[..i];
        if tokens[i] != token { kept := kept + [tokens[i]]; }
      }
      assert tokens[..|tokens|] == tokens;
      if |kept| < |tokens| {
        stored := Some(kept);
        return true;
      }
      return false;
    }
  }

  // ---------------------------------------------------------------------------------------------
  // Refinement of a set

  predicate Distinct(tokens: seq<Address>) {
    forall i, j | 0 <= i < j < |tokens| :: tokens[i] != tokens[j]
  }

  function Elements(tokens: seq<Address>): set<Address> { set t | t in tokens }

  lemma {:induction false} WithoutMembers(tokens: seq<Address>, token: Address, t: Address)
    ensures t in Without(tokens, token) <==> t in tokens && t != token
  {
    if tokens != [] {
      var n := |tokens| - 1;
      assert tokens == tokens[..n] + [tokens[n]];
      WithoutMembers(tokens[..n], token, t);
    }
  }

  lemma {:induction false} WithoutLength(tokens: seq<Address>, token: Address)
    ensures |Without(tokens, token)| <= |tokens|
    ensures |Without(tokens, token)| == |tokens| <==> token !in tokens
    ensures token !in tokens ==> Without(tokens, token) == tokens
  {
    if tokens != [] {
      var n := |tokens| - 1;
      assert tokens == tokens[..n] + [tokens[n]];
      WithoutLength(tokens[..n], token);
    }
  }

  lemma {:induction false} WithoutDistinct(tokens: seq<Address>, token: Address)
    requires Distinct(tokens)
    ensures Distinct(Without(tokens, token))
  {
    if tokens != [] {
      var n := |tokens| - 1;
      assert Distinct(tokens[..n]);
      WithoutDistinct(tokens[..n], token);
      WithoutMembers(tokens[..n], token, tokens[n]);
      assert tokens[n] !in Without(tokens[..n], token);
    }
  }

  lemma {:induction false} WithoutIsDifference(tokens: seq<Address>, token: Address)
    ensures Elements(Without(tokens, token)) == Elements(tokens) - {token}
  {
    forall t ensures t in Elements(Without(tokens, token)) <==> t in Elements(tokens) - {token} {
      WithoutMembers(tokens, token, t);
    }
  }

  datatype Edit = AddToken(token: Address) | RemoveToken(token: Address)

  function ListAfter(edits: seq<Edit>): seq<Address> {
    if edits == [] then [] else Perform(ListAfter(edits[..|edits| - 1]), edits[|edits| - 1]).0
  }

  function Perform(tokens: seq<Address>, e: Edit): (seq<Address>, bool) {
    match e
    case AddToken(t) => Add(tokens, t)
    case RemoveToken(t) => Remove(tokens, t)
  }

  /** The set the list stands for. */
  function SetAfter(edits: seq<Edit>): set<Address> {
    if edits == [] then {} else PerformOnSet(SetAfter(edits[..|edits| - 1]), edits[|edits| - 1])
  }

  function PerformOnSet(s: set<Address>, e: Edit): set<Address> {
    match e
    case AddToken(t) => s + {t}
    case RemoveToken(t) => s - {t}
  }

  lemma {:induction false} EditRefines(tokens: seq<Address>, e: Edit)
    requires Distinct(tokens)
    ensures var (after, changed) := Perform(tokens, e);
      && Distinct(after)
      && Elements(after) == PerformOnSet(Elements(tokens), e)
      && (changed <==> PerformOnSet(Elements(tokens), e) != Elements(tokens))
      && (!changed ==> after == tokens)
  {
    WithoutIsDifference(tokens, e.token);
    WithoutLength(tokens, e.token);
    WithoutDistinct(tokens, e.token);
    if e.RemoveToken? && e.token in tokens { assert e.token in Elements(tokens); }
    if e.AddToken? && e.token !in tokens { assert e.token in PerformOnSet(Elements(tokens), e); }
  }

  /** Any sequence of adds and removes from empty keeps the list free of duplicates and equal to the
      abstract set, and the next edit reports exactly whether that set changes. */
  lemma {:induction false} AllowlistRefinesSet(edits: seq<Edit>, next: Edit)
    ensures Distinct(ListAfter(edits))
    ensures Elements(ListAfter(edits)) == SetAfter(edits)
    ensures Perform(ListAfter(edits), next).1 <==> PerformOnSet(SetAfter(edits), next) != SetAfter(edits)
    decreases |edits|
  {
    if edits != [] {
      var n := |edits| - 1;
      AllowlistRefinesSet(edits[..n], next);
      EditRefines(ListAfter(edits[..n]), edits[n]);
    }
    EditRefines(ListAfter(edits), next);
  }

  /** Adding an absent token and removing it again restores the list, order included. */
  lemma {:induction false} AddThenRemoveRestores(tokens: seq<Address>, token: Address)
    requires token !in tokens
    ensures Add(tokens, token).1
    ensures Remove(Add(tokens, token).0, token) == (tokens, true)
  {
    var more := tokens + [token];
    assert more[..|tokens|] == tokens;
    WithoutLength(tokens, token);
    assert Without(more, token) == Without(tokens, token) + [] == tokens;
  }

  // ---------------------------------------------------------------------------------------------
  // Order

  /** The edit that put a listed token on the list for the last time; nothing if it is not listed. */
  function AddedBy(edits: seq<Edit>, token: Address): Option<nat> {
    if edits == [] then None
    else
      var n := |edits| - 1;
      if edits[n] == RemoveToken(token) then None
      else if edits[n] == AddToken(token) && token !in SetAfter(edits[..n]) then Some(n)
      else AddedBy(edits[..n], token)
  }

  /** One token before another in the list. */
  predicate Precedes(tokens: seq<Address>, t: Address, u: Address) {
    exists i, j | 0 <= i < j < |tokens| :: tokens[i] == t && tokens[j] == u
  }

  lemma {:induction false} AppendedOrder(tokens: seq<Address>, x: Address, t: Address, u: Address)
    ensures Precedes(tokens + [x], t, u) <==> Precedes(tokens, t, u) || (t in tokens && u == x)
  {
    var more := tokens + [x];
    assert forall k | 0 <= k < |tokens| :: more[k] == tokens[k];
    if Precedes(tokens, t, u) {
      var i, j :| 0 <= i < j < |tokens| && tokens[i] == t && tokens[j] == u;
      assert more[i] == t && more[j] == u;
    }
    if t in tokens && u == x {
      var k :| 0 <= k < |tokens| && tokens[k] == t;
      assert more[k] == t && more[|tokens|] == u;
    }
  }

  lemma {:induction false} WithoutKeepsOrder(tokens: seq<Address>, token: Address, t: Address, u: Address)
    ensures Precedes(Without(tokens, token), t, u) ==> Precedes(tokens, t, u)
  {
    if tokens != [] {
      var n := |tokens| - 1;
      var front := Without(tokens[..n], token);
      assert tokens == tokens[..n] + [tokens[n]];
      WithoutKeepsOrder(tokens[..n], token, t, u);
      WithoutMembers(tokens[..n], token, t);
      AppendedOrder(tokens[..n], tokens[n], t, u);
      AppendedOrder(front, tokens[n], t, u);
      assert Without(tokens, token) == front || Without(tokens, token) == front + [tokens[n]];
    }
  }

  lemma {:induction false} ListedIsAdded(edits: seq<Edit>, t: Address)
    ensures t in SetAfter(edits) <==> AddedBy(edits, t).Some?
    ensures t in ListAfter(edits) <==> t in SetAfter(edits)
    ensures AddedBy(edits, t).Some? ==> AddedBy(edits, t).value < |edits|
  {
    AllowlistRefinesSet(edits, AddToken(t));
    assert t in ListAfter(edits) <==> t in Elements(ListAfter(edits));
    if edits != [] { ListedIsAdded(edits[..|edits| - 1], t); }
  }

  /** The list is in the order in which its tokens were put on it. */
  lemma {:induction false} ListIsInOrder(edits: seq<Edit>, t: Address, u: Address)
    ensures Precedes(ListAfter(edits), t, u) ==>
              && AddedBy(edits, t).Some? && AddedBy(edits, u).Some?
              && AddedBy(edits, t).value < AddedBy(edits, u).value
  {
    if Precedes(ListAfter(edits), t, u) {
      var n := |edits| - 1;
      var before := ListAfter(edits[..n]);
      ListIsInOrder(edits[..n], t, u);
      ListedIsAdded(edits[..n], t);
      ListedIsAdded(edits[..n], u);
      ListedIsAdded(edits, t);
      ListedIsAdded(edits, u);
      match edits[n]
      case AddToken(x) => AppendedOrder(before, x, t, u);
      case RemoveToken(x) => WithoutKeepsOrder(before, x, t, u);
    }
  }
}
