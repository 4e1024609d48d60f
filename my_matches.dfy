/*
 * The logic of the "My Matches" page (app/my-matches/page.tsx): the list of
 * the connected user's matches read back from the stored records, newest
 * first; the other party of each match; which match is selected; and the
 * guard in front of sending a chat message.
 */
module MyMatches {
  import opened MessageEncoding
  import opened LoveKnotHook

  /** The record names the user (given lower-cased) as one of its two parties, in any case. */
  predicate Involves(m: MatchRecord, user: Text)
  {
    ToLower(m.userA) == user || ToLower(m.userB) == user
  }

  /** A record involves the connected user exactly when one of its parties is the user's address up to case. */
  lemma InvolvesIff(m: MatchRecord, user: Text)
    ensures Involves(m, ToLower(user)) <==> TextsSameUpToCase(m.userA, user) || TextsSameUpToCase(m.userB, user)
  {
    ToLowerEqualIff(m.userA, user);
    ToLowerEqualIff(m.userB, user);
  }

  /**
   * The `filter` of the parsed records down to those of the user: every
   * record of the user is kept as often as it is stored, and no other.
   */
  function UserMatches(records: seq<MatchRecord>, user: Text): (r: seq<MatchRecord>)
    ensures |r| <= |records|
    ensures forall m :: m in r <==> m in records && Involves(m, user)
    ensures forall m :: multiset(r)[m] == if Involves(m, user) then multiset(records)[m] else 0
  {
    if records == [] then []
    else
      var init := UserMatches(records[..|records| - 1], user);
      var last := records[|records| - 1];
      assert records == records[..|records| - 1] + [last];
      if Involves(last, user) then init + [last] else init
  }

  /** Filtering keeps a list free of repeated pairs. */
  lemma {:induction false} UserMatchesKeepsPairsDistinct(records: seq<MatchRecord>, user: Text)
    requires PairsDistinct(records)
    ensures PairsDistinct(UserMatches(records, user))
    decreases |records|
  {
    if records != [] {
      var init := records[..|records| - 1];
      var last := records[|records| - 1];
      assert PairsDistinct(init) by {
        forall i, j | 0 <= i < j < |init| ensures !SamePair(init[i], init[j]) {
          assert init[i] == records[i] && init[j] == records[j];
        }
      }
      UserMatchesKeepsPairsDistinct(init, user);
      var kept := UserMatches(init, user);
      if Involves(last, user) {
        var r := kept + [last];
        forall i, j | 0 <= i < j < |r| ensures !SamePair(r[i], r[j]) {
          if j == |kept| {
            assert r[i] in init;
            var k :| 0 <= k < |init| && init[k] == r[i];
            assert records[k] == r[i] && records[|records| - 1] == last;
          }
        }
      }
    }
  }

  /** In a list free of repeated pairs, no record occurs twice. */
  lemma {:induction false} PairsDistinctOccursOnce(s: seq<MatchRecord>, x: MatchRecord)
    requires PairsDistinct(s)
    ensures multiset(s)[x] <= 1
    decreases |s|
  {
    if s != [] {
      var init, last := s[..|s| - 1], s[|s| - 1];
      assert s == init + [last];
      assert PairsDistinct(init) by {
        forall i, j | 0 <= i < j < |init| ensures !SamePair(init[i], init[j]) {
          assert init[i] == s[i] && init[j] == s[j];
        }
      }
      PairsDistinctOccursOnce(init, x);
    }
  }

  lemma OccursTwice(t: seq<MatchRecord>, i: int, j: int)
    requires 0 <= i < j < |t| && t[i] == t[j]
    ensures multiset(t)[t[i]] >= 2
  {
    assert t == t[..j] + [t[j]] + t[j + 1..];
    assert t[i] in t[..j];
  }

  /** Reordering a list keeps it free of repeated pairs. */
  lemma PermutationKeepsPairsDistinct(s: seq<MatchRecord>, t: seq<MatchRecord>)
    requires PairsDistinct(s) && multiset(s) == multiset(t)
    ensures PairsDistinct(t)
  {
    forall i, j | 0 <= i < j < |t| ensures !SamePair(t[i], t[j]) {
      if t[i] == t[j] {
        PairsDistinctOccursOnce(s, t[i]);
        OccursTwice(t, i, j);
      } else {
        assert t[i] in multiset(s) && t[j] in multiset(s);
        var p :| 0 <= p < |s| && s[p] == t[i];
        var q :| 0 <= q < |s| && s[q] == t[j];
        assert p != q;
        if SamePair(t[i], t[j]) {
          assert SamePair(s[p], s[q]) && SamePair(s[q], s[p]);
          assert false;
        }
      }
    }
  }

  /** `sort((a, b) => b.timestamp - a.timestamp)` leaves the records newest first. */
  predicate NewestFirst(s: seq<MatchRecord>)
  {
    forall p, q :: 0 <= p < q < |s| ==> s[p].timestamp >= s[q].timestamp
  }

  /**
   * While the record at j is being moved down: the records up to i are in
   * order apart from the one at j ...
   */
  ghost predicate OrderedExcept(s: seq<MatchRecord>, i: int, j: int)
    requires 0 <= j <= i < |s|
  {
    forall p, q :: 0 <= p < q <= i && p != j && q != j ==> s[p].timestamp >= s[q].timestamp
  }

  /** ... and that one is at least as new as every record it has passed. */
  ghost predicate NewerThanPassed(s: seq<MatchRecord>, i: int, j: int)
    requires 0 <= j <= i < |s|
  {
    forall q :: j < q <= i ==> s[j].timestamp >= s[q].timestamp
  }

  lemma StartInsertion(s: seq<MatchRecord>, i: int)
    requires 0 < i < |s| && NewestFirst(s[..i])
    ensures OrderedExcept(s, i, i) && NewerThanPassed(s, i, i)
  {
    forall p, q | 0 <= p < q <= i && p != i && q != i ensures s[p].timestamp >= s[q].timestamp {
      assert s[p] == s[..i][p] && s[q] == s[..i][q];
    }
  }

  lemma SwapDown(s: seq<MatchRecord>, i: int, j: int)
    requires 0 < j <= i < |s| && OrderedExcept(s, i, j) && NewerThanPassed(s, i, j)
    requires s[j - 1].timestamp < s[j].timestamp
    ensures OrderedExcept(s[j - 1 := s[j]][j := s[j - 1]], i, j - 1)
    ensures NewerThanPassed(s[j - 1 := s[j]][j := s[j - 1]], i, j - 1)
  {
  }

  lemma FinishInsertion(s: seq<MatchRecord>, i: int, j: int)
    requires 0 <= j <= i < |s| && OrderedExcept(s, i, j) && NewerThanPassed(s, i, j)
    requires j == 0 || s[j - 1].timestamp >= s[j].timestamp
    ensures NewestFirst(s[..i + 1])
  {
    forall p, q | 0 <= p < q <= i ensures s[p].timestamp >= s[q].timestamp {
      if p == j {
      } else if q == j {
        assert s[p].timestamp >= s[j - 1].timestamp || p == j - 1;
      }
    }
  }

  lemma SwapKeepsMultiset(s: seq<MatchRecord>, j: int)
    requires 0 < j < |s|
    ensures multiset(s[j - 1 := s[j]][j := s[j - 1]]) == multiset(s)
  {
  }

  /** One insertion step: move the record at i down past every older one before it. */
  method InsertNewest(a: array<MatchRecord>, i: int)
    requires 0 < i < a.Length && NewestFirst(a[..i])
    modifies a
    ensures NewestFirst(a[..i + 1])
    ensures multiset(a[..]) == multiset(old(a[..]))
    ensures a[i + 1..] == old(a[i + 1..])
  {
    StartInsertion(a[..], i);
    var j := i;
    while j > 0 && a[j - 1].timestamp < a[j].timestamp
      invariant 0 <= j <= i
      invariant multiset(a[..]) == multiset(old(a[..]))
      invariant OrderedExcept(a[..], i, j) && NewerThanPassed(a[..], i, j)
      invariant a[i + 1..] == old(a[i + 1..])
    {
      SwapDown(a[..], i, j);
      SwapKeepsMultiset(a[..], j);
      a[j - 1], a[j] := a[j], a[j - 1];
      j := j - 1;
    }
    FinishInsertion(a[..], i, j);
    assert a[..][..i + 1] == a[..i + 1];
  }

  /** The in-place sort: insertion by adjacent swaps. */
  method SortNewestFirst(a: array<MatchRecord>)
    modifies a
    ensures NewestFirst(a[..])
    ensures multiset(a[..]) == multiset(old(a[..]))
  {
    if a.Length == 0 {
      return;
    }
    for i := 1 to a.Length
      invariant NewestFirst(a[..i])
      invariant multiset(a[..]) == multiset(old(a[..]))
    {
      InsertNewest(a, i);
    }
    assert a[..a.Length] == a[..];
  }

  /**
   * `loadMatches`: nothing unless a wallet is connected with an account and
   * a list is stored for it; otherwise the user's records, newest first.
   * `stored` is the parsed list under the user's storage key (None when
   * there is none).
   */
  method LoadMatches(isConnected: bool, accounts: seq<Text>, stored: Option<seq<MatchRecord>>)
    returns (matches: seq<MatchRecord>)
    ensures !isConnected || accounts == [] || stored.None? ==> matches == []
    ensures isConnected && accounts != [] && stored.Some? ==>
      NewestFirst(matches) && multiset(matches) == multiset(UserMatches(stored.value, ToLower(accounts[0])))
    ensures forall m :: m in matches <==>
      isConnected && accounts != [] && stored.Some? && m in stored.value && Involves(m, ToLower(accounts[0]))
    ensures stored.Some? && PairsDistinct(stored.value) ==> PairsDistinct(matches)
  {
    if !isConnected || accounts == [] {
      return [];
    }
    var currentUser := ToLower(accounts[0]);
    if stored.None? {
      return [];
    }
    var userMatches := UserMatches(stored.value, currentUser);
    var a := new MatchRecord[|userMatches|](k requires 0 <= k < |userMatches| => userMatches[k]);
    assert a[..] == userMatches;
    SortNewestFirst(a);
    matches := a[..];
    forall m ensures m in matches <==> m in userMatches {
      assert m in matches <==> m in multiset(matches);
      assert m in userMatches <==> m in multiset(userMatches);
    }
    if PairsDistinct(stored.value) {
      UserMatchesKeepsPairsDistinct(stored.value, currentUser);
      PermutationKeepsPairsDistinct(userMatches, matches);
    }
  }

  /** The address shown for a match: the party that is not the connected user. */
  function OtherParty(m: MatchRecord, me: Text): Text
  {
    if ToLower(m.userA) == ToLower(me) then m.userB else m.userA
  }

  /** The connected user and the other party are exactly the record's two users. */
  lemma OtherPartyCompletesPair(m: MatchRecord, me: Text)
    requires Involves(m, ToLower(me))
    ensures multiset{ToLower(me), ToLower(OtherParty(m, me))} == multiset{ToLower(m.userA), ToLower(m.userB)}
  {
  }

  /** For a record of two different users that involves the connected user, the address shown is the other one. */
  lemma OtherPartyIsNotMe(m: MatchRecord, me: Text)
    requires Involves(m, ToLower(me)) && ToLower(m.userA) != ToLower(m.userB)
    ensures ToLower(OtherParty(m, me)) != ToLower(me)
    ensures OtherParty(m, me) == m.userA || OtherParty(m, me) == m.userB
  {
  }

  /**
   * End to end: after a match is found and stored, the user's list holds a
   * record of that pair, and the page shows the matched address as its
   * other party.
   */
  lemma FoundMatchIsListed(stored: seq<MatchRecord>, signer: Text, other: Text, now: int)
    ensures var found := NewMatchRecord(signer, other, now);
      exists r :: r in UserMatches(WithMatch(stored, found), ToLower(signer)) && SamePair(r, found) &&
        ToLower(OtherParty(r, signer)) == ToLower(other)
  {
    var found := NewMatchRecord(signer, other, now);
    var updated := WithMatch(stored, found);
    var i: int;
    if HasPair(stored, found) {
      i :| 0 <= i < |stored| && SamePair(stored[i], found);
    } else {
      i := |stored|;
    }
    var r := updated[i];
    assert SamePair(r, found);
    ToLowerIdempotent(signer);
    ToLowerIdempotent(other);
    assert Involves(r, ToLower(signer));
    assert r in updated;
  }

  /** The `isSelected` test: the selected match names the same pair, in either order. */
  predicate IsSelected(selected: Option<MatchRecord>, m: MatchRecord)
  {
    selected.Some? && SamePair(selected.value, m)
  }

  /** A match shows as selected exactly when it names the selected record's two users, as an unordered pair. */
  lemma IsSelectedIsPairEquality(selected: MatchRecord, m: MatchRecord)
    ensures IsSelected(Some(selected), m) <==> multiset{selected.userA, selected.userB} == multiset{m.userA, m.userB}
    ensures !IsSelected(None, m)
  {
    SamePairIsPairEquality(selected, m);
  }

  /** A click on a match: it is deselected if it was selected, and selected otherwise. */
  function ToggleSelection(selected: Option<MatchRecord>, m: MatchRecord): (r: Option<MatchRecord>)
    ensures IsSelected(r, m) <==> !IsSelected(selected, m)
    ensures r.Some? ==> r.value == m
  {
    if IsSelected(selected, m) then None else Some(m)
  }

  /** In a list without repeated pairs, at most one match shows as selected. */
  lemma AtMostOneSelected(matches: seq<MatchRecord>, selected: Option<MatchRecord>, i: int, j: int)
    requires PairsDistinct(matches)
    requires 0 <= i < |matches| && 0 <= j < |matches|
    requires IsSelected(selected, matches[i]) && IsSelected(selected, matches[j])
    ensures i == j
  {
    if i != j {
      var lo, hi := if i < j then i else j, if i < j then j else i;
      SamePairIsPairEquality(selected.value, matches[lo]);
      SamePairIsPairEquality(selected.value, matches[hi]);
      SamePairIsPairEquality(matches[lo], matches[hi]);
    }
  }

  /**
   * `handleSendMessage`: a blank text is ignored and kept in the input;
   * otherwise the input is cleared and the text goes to `sendMessage`,
   * whose own blank check it then always passes.
   */
  method HandleSendMessage(text: Bytes, isBlank: Bytes -> bool, busy: bool, ready: bool, recipientIsAddress: bool)
    returns (newText: Bytes, outcome: Option<SendOutcome>)
    ensures IsBlankText(text, isBlank) ==> newText == text && outcome == None
    ensures !IsBlankText(text, isBlank) ==> newText == [] && outcome.Some? && outcome.value != EmptyMessage
    ensures !IsBlankText(text, isBlank) && !busy && ready && recipientIsAddress && |text| <= 4 * (MaxMessageWords - 1)
      ==> outcome == Some(Encrypt(Encode(text, true)))
  {
    if IsBlankText(text, isBlank) {
      return text, None;
    }
    var messageToSend := text;
    newText := [];
    var sent := SendMessage(busy, ready, recipientIsAddress, messageToSend, isBlank);
    outcome := Some(sent);
  }
}
