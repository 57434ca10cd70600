/**
 * Extraction of MAC-address tokens from a received message and the
 * de-duplicating, append-only list they are collected in.
 */
module MacAddresses {

  /** A MAC address is 17 characters long: six hex pairs and five colons. */
  const MacLength: nat := 17

  predicate IsHexDigit(c: char) {
    ('0' <= c <= '9') || ('A' <= c <= 'F') || ('a' <= c <= 'f')
  }

  /**
   * The pattern `([0-9A-Fa-f]{2}[:]){5}([0-9A-Fa-f]{2})`: a colon at offsets
   * 2, 5, 8, 11 and 14 and a hex digit at every other offset.
   */
  predicate IsMacAddress(s: string) {
    |s| == MacLength &&
    forall i :: 0 <= i < MacLength ==> if i % 3 == 2 then s[i] == ':' else IsHexDigit(s[i])
  }

  /** The pattern matches the 17-character window of `msg` that starts at `p`. */
  predicate MatchesAt(msg: string, p: nat) {
    p + MacLength <= |msg| && IsMacAddress(msg[p..p + MacLength])
  }

  /** One match of the pattern: where it starts in the message and the text it covers. */
  datatype Match = Match(index: nat, value: string)

  /**
   * The matches of the pattern at or after position `i`, leftmost first and
   * non-overlapping: when the window at `i` matches it is reported and the search
   * resumes after it, otherwise the search moves on by one character. The pattern
   * has a fixed length, so this is the sequence `Regex.Matches` enumerates.
   */
  function ScanFrom(msg: string, i: nat): (ms: seq<Match>)
    decreases |msg| - i
    ensures forall k :: 0 <= k < |ms| ==>
              i <= ms[k].index && MatchesAt(msg, ms[k].index) &&
              ms[k].value == msg[ms[k].index..ms[k].index + MacLength]
    ensures forall k :: 0 <= k < |ms| - 1 ==> ms[k].index + MacLength <= ms[k + 1].index
  {
    if i + MacLength > |msg| then []
    else if MatchesAt(msg, i) then [Match(i, msg[i..i + MacLength])] + ScanFrom(msg, i + MacLength)
    else ScanFrom(msg, i + 1)
  }

  /**
   * `Regex.Matches(message)`: every match is a window where the pattern
   * matches, carrying that window's text, and the matches run left to right
   * without overlapping.
   */
  function Matches(msg: string): (ms: seq<Match>)
    ensures forall k :: 0 <= k < |ms| ==>
              MatchesAt(msg, ms[k].index) && ms[k].value == msg[ms[k].index..ms[k].index + MacLength]
    ensures forall k :: 0 <= k < |ms| - 1 ==> ms[k].index + MacLength <= ms[k + 1].index
  {
    ScanFrom(msg, 0)
  }

  /** The texts of the matches, in order (`match.Value` of each). */
  function MatchValues(ms: seq<Match>): seq<string> {
    seq(|ms|, k requires 0 <= k < |ms| => ms[k].value)
  }

  /**
   * Every text a message's matches yield is MAC-shaped and is the window of
   * the message at some position where the pattern matches.
   */
  lemma MatchValuesAreTokens(msg: string)
    ensures forall v :: v in MatchValues(Matches(msg)) ==>
              IsMacAddress(v) && exists p: nat :: MatchesAt(msg, p) && v == msg[p..p + MacLength]
  {
    var ms := Matches(msg);
    forall v | v in MatchValues(ms)
      ensures IsMacAddress(v) && exists p: nat :: MatchesAt(msg, p) && v == msg[p..p + MacLength]
    {
      var k :| 0 <= k < |ms| && MatchValues(ms)[k] == v;
      assert MatchesAt(msg, ms[k].index);
    }
  }

  /** Some match in `ms` covers position `p`. */
  ghost predicate Covered(ms: seq<Match>, p: int) {
    exists k :: 0 <= k < |ms| && ms[k].index <= p < ms[k].index + MacLength
  }

  /**
   * Completeness: every position at or after `i` where the pattern matches lies
   * inside a reported match (it is reported, or it overlaps one to its left).
   */
  lemma {:induction false} ScanFromComplete(msg: string, i: nat, p: nat)
    ensures i <= p && MatchesAt(msg, p) ==> Covered(ScanFrom(msg, i), p)
    decreases |msg| - i
  {
    if i <= p && MatchesAt(msg, p) {
      var ms := ScanFrom(msg, i);
      if MatchesAt(msg, i) {
        if p < i + MacLength {
          assert ms[0].index <= p < ms[0].index + MacLength;
        } else {
          var rest := ScanFrom(msg, i + MacLength);
          assert ms == [Match(i, msg[i..i + MacLength])] + rest;
          ScanFromComplete(msg, i + MacLength, p);
          var k :| 0 <= k < |rest| && rest[k].index <= p < rest[k].index + MacLength;
          assert ms[k + 1] == rest[k];
        }
      } else {
        ScanFromComplete(msg, i + 1, p);
      }
    }
  }

  /** The position where the search for the `k`-th match (from `i`) begins. */
  function GapStart(ms: seq<Match>, i: nat, k: nat): nat
    requires k < |ms|
  {
    if k == 0 then i else ms[k - 1].index + MacLength
  }

  /** Leftmost choice: no match starts in the gap that precedes a reported match. */
  lemma {:induction false} ScanFromGap(msg: string, i: nat, k: nat, p: nat)
    ensures var ms := ScanFrom(msg, i);
            k < |ms| && GapStart(ms, i, k) <= p < ms[k].index ==> !MatchesAt(msg, p)
    decreases |msg| - i
  {
    var ms := ScanFrom(msg, i);
    if i + MacLength > |msg| {
    } else if MatchesAt(msg, i) {
      var rest := ScanFrom(msg, i + MacLength);
      assert ms == [Match(i, msg[i..i + MacLength])] + rest;
      if 0 < k < |ms| {
        ScanFromGap(msg, i + MacLength, k - 1, p);
        assert ms[k] == rest[k - 1];
        assert GapStart(ms, i, k) == GapStart(rest, i + MacLength, k - 1);
      }
    } else if i < p {
      ScanFromGap(msg, i + 1, k, p);
    }
  }

  /** Nor does one start after the last reported match. */
  lemma {:induction false} ScanFromTail(msg: string, i: nat, p: nat)
    ensures var ms := ScanFrom(msg, i);
            i <= p && (ms == [] || ms[|ms| - 1].index + MacLength <= p) ==> !MatchesAt(msg, p)
    decreases |msg| - i
  {
    var ms := ScanFrom(msg, i);
    if i + MacLength > |msg| {
    } else if MatchesAt(msg, i) {
      var rest := ScanFrom(msg, i + MacLength);
      assert ms == [Match(i, msg[i..i + MacLength])] + rest;
      ScanFromTail(msg, i + MacLength, p);
    } else if i < p {
      ScanFromTail(msg, i + 1, p);
    }
  }

  /** A message yields no match exactly when no window of it has the MAC shape. */
  lemma NoMatchNoTokens(msg: string)
    ensures Matches(msg) == [] <==> forall p :: !MatchesAt(msg, p)
  {
    if Matches(msg) == [] {
      forall p
        ensures !MatchesAt(msg, p)
      {
        ScanFromComplete(msg, 0, p);
      }
    } else {
      assert MatchesAt(msg, Matches(msg)[0].index);
    }
  }

  /** Positions where no window matches are skipped one by one. */
  lemma {:induction false} ScanSkips(msg: string, i: nat, j: nat)
    requires i <= j && forall p :: i <= p < j ==> !MatchesAt(msg, p)
    ensures ScanFrom(msg, i) == ScanFrom(msg, j)
    decreases j - i
  {
    if i < j {
      ScanSkips(msg, i + 1, j);
    }
  }

  lemma SampleIsMacAddress()
    ensures IsMacAddress("0a:1B:2C:3d:4E:5f")
  {
  }

  /** A token surrounded by text is extracted, with case kept as received. */
  lemma DeviceMessageExample()
    ensures Matches("device 0a:1B:2C:3d:4E:5f seen") == [Match(7, "0a:1B:2C:3d:4E:5f")]
  {
    var mac := "0a:1B:2C:3d:4E:5f";
    var msg := "device " + mac + " seen";
    assert msg == "device 0a:1B:2C:3d:4E:5f seen";
    assert msg[7..24] == mac;
    SampleIsMacAddress();
    forall p: nat | p < 7
      ensures !MatchesAt(msg, p)
    {
      assert msg[p..p + MacLength][6 - p] == msg[6] == ' ';
    }
    ScanSkips(msg, 0, 7);
    assert ScanFrom(msg, 24) == [];
  }

  /** The same token sent twice in one message matches twice and is collected once. */
  lemma RepeatedTokenExample()
    ensures var mac := "0a:1B:2C:3d:4E:5f";
            Matches(mac + ";" + mac) == [Match(0, mac), Match(18, mac)] &&
            AppendAbsent([], MatchValues(Matches(mac + ";" + mac))) == [mac]
  {
    var mac := "0a:1B:2C:3d:4E:5f";
    var msg := mac + ";" + mac;
    SampleIsMacAddress();
    assert msg[0..17] == mac;
    assert msg[18..35] == mac;
    assert !MatchesAt(msg, 17) by {
      assert msg[17..34][0] == ';';
    }
    assert ScanFrom(msg, 35) == [];
    assert ScanFrom(msg, 18) == [Match(18, mac)];
    assert ScanFrom(msg, 17) == ScanFrom(msg, 18);
    var values := MatchValues(Matches(msg));
    assert values == [mac, mac];
    assert values[..1] == [mac] && values[..1][..0] == [];
    assert AppendAbsent([], values[..1]) == [mac];
    assert AppendAbsent([], values) == [mac];
  }

  /** `s` holds every element once. */
  predicate NoDuplicates(s: seq<string>) {
    forall i, j :: 0 <= i < j < |s| ==> s[i] != s[j]
  }

  /**
   * The list after appending, in order, each of `tokens` that is not yet in it:
   * `if (!macAddresses.Contains(m)) macAddresses.Add(m)` for every match `m`.
   */
  function AppendAbsent(list: seq<string>, tokens: seq<string>): (r: seq<string>)
    ensures list <= r
    decreases |tokens|
  {
    if tokens == [] then list
    else
      var before := AppendAbsent(list, tokens[..|tokens| - 1]);
      var t := tokens[|tokens| - 1];
      if t in before then before else before + [t]
  }

  /** Membership: the list ends up holding exactly what it held plus every token. */
  lemma {:induction false} AppendAbsentMembers(list: seq<string>, tokens: seq<string>, x: string)
    ensures x in AppendAbsent(list, tokens) <==> x in list || x in tokens
    decreases |tokens|
  {
    if tokens != [] {
      var init := tokens[..|tokens| - 1];
      AppendAbsentMembers(list, init, x);
      assert tokens == init + [tokens[|tokens| - 1]];
    }
  }

  /** However often a token repeats, a duplicate-free list stays duplicate-free. */
  lemma {:induction false} AppendAbsentNoDuplicates(list: seq<string>, tokens: seq<string>)
    requires NoDuplicates(list)
    ensures NoDuplicates(AppendAbsent(list, tokens))
    decreases |tokens|
  {
    if tokens != [] {
      AppendAbsentNoDuplicates(list, tokens[..|tokens| - 1]);
    }
  }

  /** The first position of `x` in `s`. */
  function IndexOf(s: seq<string>, x: string): (i: nat)
    requires x in s
    ensures i < |s| && s[i] == x && x !in s[..i]
  {
    if s[0] == x then 0 else 1 + IndexOf(s[1..], x)
  }

  lemma {:induction false} IndexOfPrefix(s: seq<string>, t: seq<string>, x: string)
    requires x in s
    ensures x in s + t && IndexOf(s + t, x) == IndexOf(s, x)
  {
    assert (s + t)[IndexOf(s, x)] == x;
    if s[0] != x {
      assert (s + t)[1..] == s[1..] + t;
      IndexOfPrefix(s[1..], t, x);
    }
  }

  /**
   * Only tokens are appended, and in the order in which they first occur among
   * the tokens.
   */
  lemma {:induction false} AppendAbsentOrder(list: seq<string>, tokens: seq<string>)
    ensures forall i :: |list| <= i < |AppendAbsent(list, tokens)| ==> AppendAbsent(list, tokens)[i] in tokens
    ensures forall i, j :: |list| <= i < j < |AppendAbsent(list, tokens)| ==>
              IndexOf(tokens, AppendAbsent(list, tokens)[i]) < IndexOf(tokens, AppendAbsent(list, tokens)[j])
    decreases |tokens|
  {
    if tokens != [] {
      var init := tokens[..|tokens| - 1];
      var t := tokens[|tokens| - 1];
      var before := AppendAbsent(list, init);
      var r := AppendAbsent(list, tokens);
      AppendAbsentOrder(list, init);
      assert tokens == init + [t];
      forall i | |list| <= i < |before|
        ensures before[i] in init && IndexOf(tokens, before[i]) == IndexOf(init, before[i])
      {
        assert before[i] in init;
        IndexOfPrefix(init, [t], before[i]);
      }
      if t !in before {
        AppendAbsentMembers(list, init, t);
        assert t !in init;
        assert IndexOf(tokens, t) == |init|;
        assert r == before + [t];
      }
    }
  }
}
