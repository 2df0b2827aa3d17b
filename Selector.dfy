/** The scanner callback's choice of protocol, shared by the three readers.
    One protocol (`top`) wins wherever it appears in the detected list;
    otherwise the first protocol of the list that belongs to `others` wins,
    whatever its place in the comment's stated priority. When nothing matches
    and parent fallback is on, the same rule is applied to the parents of the
    detected protocols. */
module Selector {
  import opened NfcTypes

  /** The protocols a selector can return besides `Invalid`. */
  predicate Rule(top: Protocol, others: set<Protocol>)
  {
    top != Invalid && Invalid !in others && top !in others
  }

  /** The first protocol of `ps` in `others`, or `Invalid`. */
  function FirstOf(ps: seq<Protocol>, others: set<Protocol>): (p: Protocol)
    requires Invalid !in others
    ensures p != Invalid ==> p in others && p in ps
    ensures p == Invalid <==> forall i :: 0 <= i < |ps| ==> ps[i] !in others
  {
    if ps == [] then Invalid
    else if ps[0] in others then ps[0]
    else FirstOf(ps[1..], others)
  }

  /** The direct choice: `top` anywhere, else the first of `others`. */
  function Pick(ps: seq<Protocol>, top: Protocol, others: set<Protocol>): Protocol
    requires Rule(top, others)
  {
    if top in ps then top else FirstOf(ps, others)
  }

  /** The parents of the detected protocols, in the same order. */
  function Parents(ps: seq<Protocol>, parent: Protocol -> Protocol): (qs: seq<Protocol>)
    ensures |qs| == |ps| && forall i :: 0 <= i < |ps| ==> qs[i] == parent(ps[i])
  {
    seq(|ps|, i requires 0 <= i < |ps| => parent(ps[i]))
  }

  /** The protocol the scanner callback selects. */
  function Selected(ps: seq<Protocol>, top: Protocol, others: set<Protocol>,
                    parent: Protocol -> Protocol, fallback: bool): Protocol
    requires Rule(top, others)
  {
    var direct := Pick(ps, top, others);
    if direct == Invalid && fallback && |ps| > 0 then Pick(Parents(ps, parent), top, others) else direct
  }

  /** The selection rule of the NFC/NDEF reader: MIFARE Ultralight wins,
      then the first of ISO 14443-4A, ISO 15693 and ISO 14443-3A. */
  const WEDGE_TOP: Protocol := MfUltralight
  const WEDGE_OTHERS: set<Protocol> := {Iso14443_4a, Iso15693_3, Iso14443_3a}
  /** The selection rule of the UID-only readers: ISO 14443-3A wins, then 4A. */
  const UID_TOP: Protocol := Iso14443_3a
  const UID_OTHERS: set<Protocol> := {Iso14443_4a}

  /** One pass of the selection loop over `ps`: stops at `top`, and
      otherwise keeps the first protocol of `others` it meets. */
  method Scan(ps: seq<Protocol>, top: Protocol, others: set<Protocol>) returns (chosen: Protocol)
    requires Rule(top, others)
    ensures chosen == Pick(ps, top, others)
  {
    chosen := Invalid;
    var i := 0;
    while i < |ps|
      invariant 0 <= i <= |ps|
      invariant top !in ps[..i]
      invariant chosen == FirstOf(ps[..i], others)
    {
      var p := ps[i];
      if p == top {
        chosen := p;
        return;
      }
      FirstOfSnoc(ps[..i], p, others);
      assert ps[..i + 1] == ps[..i] + [p];
      if p in others && chosen == Invalid {
        chosen := p;
      }
      i := i + 1;
    }
    assert ps[..i] == ps;
  }

  /** The scanner callback's selection: a direct pass, then, when it found
      nothing, the list is non-empty and the reader has parent fallback, a
      pass over the parents. */
  method SelectProtocol(ps: seq<Protocol>, top: Protocol, others: set<Protocol>,
                        parent: Protocol -> Protocol, fallback: bool) returns (chosen: Protocol)
    requires Rule(top, others)
    ensures chosen == Selected(ps, top, others, parent, fallback)
  {
    chosen := Scan(ps, top, others);
    if chosen == Invalid && fallback && |ps| > 0 {
      chosen := Scan(Parents(ps, parent), top, others);
    }
  }

  lemma {:induction false} FirstOfSnoc(ps: seq<Protocol>, p: Protocol, others: set<Protocol>)
    requires Invalid !in others
    ensures FirstOf(ps + [p], others) ==
      if FirstOf(ps, others) != Invalid then FirstOf(ps, others)
      else if p in others then p else Invalid
  {
    if ps != [] {
      assert (ps + [p])[1..] == ps[1..] + [p];
      FirstOfSnoc(ps[1..], p, others);
    }
  }

  /** `FirstOf` is the earliest member of `others`: any member with none of
      `others` before it is the one returned. */
  lemma {:induction false} FirstOfEarliest(ps: seq<Protocol>, others: set<Protocol>, i: nat)
    requires Invalid !in others
    requires i < |ps| && ps[i] in others
    requires forall j :: 0 <= j < i ==> ps[j] !in others
    ensures FirstOf(ps, others) == ps[i]
  {
    if i > 0 {
      FirstOfEarliest(ps[1..], others, i - 1);
    }
  }

  /** The choice is `Invalid` or a protocol the rule supports. */
  lemma SelectedSupported(ps: seq<Protocol>, top: Protocol, others: set<Protocol>,
                          parent: Protocol -> Protocol, fallback: bool)
    requires Rule(top, others)
    ensures var p := Selected(ps, top, others, parent, fallback);
      p == Invalid || p == top || p in others
  {
  }

  /** `top` wins wherever it appears in the detected list. */
  lemma TopWins(ps: seq<Protocol>, top: Protocol, others: set<Protocol>,
                parent: Protocol -> Protocol, fallback: bool)
    requires Rule(top, others)
    requires top in ps
    ensures Selected(ps, top, others, parent, fallback) == top
  {
  }

  /** Without `top`, the first detected protocol of `others` wins: the
      comment's stated priority among the others is not applied. */
  lemma FirstInListWins(ps: seq<Protocol>, top: Protocol, others: set<Protocol>,
                        parent: Protocol -> Protocol, fallback: bool, i: nat)
    requires Rule(top, others)
    requires top !in ps
    requires i < |ps| && ps[i] in others && forall j :: 0 <= j < i ==> ps[j] !in others
    ensures Selected(ps, top, others, parent, fallback) == ps[i]
  {
    FirstOfEarliest(ps, others, i);
  }

  /** The choice comes from the detected list, or from its parents only
      when fallback is on and no detected protocol is supported. */
  lemma SelectedSource(ps: seq<Protocol>, top: Protocol, others: set<Protocol>,
                       parent: Protocol -> Protocol, fallback: bool)
    requires Rule(top, others)
    ensures var p := Selected(ps, top, others, parent, fallback);
      p == Invalid || p in ps ||
      (fallback && p in Parents(ps, parent) && forall i :: 0 <= i < |ps| ==> ps[i] != top && ps[i] !in others)
  {
  }

  /** Nothing is selected exactly when no detected protocol is supported
      and, with fallback on, no parent is supported either. */
  lemma NothingSelected(ps: seq<Protocol>, top: Protocol, others: set<Protocol>,
                        parent: Protocol -> Protocol, fallback: bool)
    requires Rule(top, others)
    ensures Selected(ps, top, others, parent, fallback) == Invalid <==>
      (forall i :: 0 <= i < |ps| ==> ps[i] != top && ps[i] !in others) &&
      (fallback ==> forall i :: 0 <= i < |ps| ==> parent(ps[i]) != top && parent(ps[i]) !in others)
  {
    var qs := Parents(ps, parent);
    if top in qs {
      var k :| 0 <= k < |qs| && qs[k] == top;
      assert parent(ps[k]) == top;
    }
  }
}
