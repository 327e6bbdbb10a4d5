/** The scans of a script's actions: the SMTP session's and the gRPC service's. */
module MailFilter {
  import opened Results

  /** Why an action refuses the message, if it does. */
  function Rejection(action: string): Option<string> {
    if action == "discard" then Some("Message discarded by filter")
    else if action == "quarantine" then Some("Message quarantined")
    else if "fileinto:Spam" <= action then Some("Classified as spam")
    else if action == "bounce" then Some("Message bounced")
    else if action == "drop" then Some("Message dropped")
    else None
  }

  /** The action is none of those that refuse a message. */
  predicate Harmless(action: string) {
    && action != "discard" && action != "quarantine" && action != "bounce" && action != "drop"
    && !("fileinto:Spam" <= action)
  }

  /** Which actions refuse a message, and with which words. */
  lemma RejectionTexts(action: string)
    ensures action == "discard" ==> Rejection(action) == Some("Message discarded by filter")
    ensures action == "quarantine" ==> Rejection(action) == Some("Message quarantined")
    ensures action == "bounce" ==> Rejection(action) == Some("Message bounced")
    ensures action == "drop" ==> Rejection(action) == Some("Message dropped")
    ensures "fileinto:Spam" <= action ==> Rejection(action) == Some("Classified as spam")
    ensures Rejection(action) == None <==>
              && action != "discard" && action != "quarantine" && action != "bounce" && action != "drop"
              && !("fileinto:Spam" <= action)
  {
  }

  /** The position of the first action from position i on that refuses. */
  function First(actions: seq<string>, i: nat): (r: Option<nat>)
    requires i <= |actions|
    ensures r.Some? ==> i <= r.value < |actions| && Rejection(actions[r.value]).Some?
    decreases |actions| - i
  {
    if i == |actions| then None else if Rejection(actions[i]).Some? then Some(i) else First(actions, i + 1)
  }

  /** The position of the last action before position n that refuses. */
  function Last(actions: seq<string>, n: nat): (r: Option<nat>)
    requires n <= |actions|
    ensures r.Some? ==> r.value < n && Rejection(actions[r.value]).Some?
  {
    if n == 0 then None else if Rejection(actions[n - 1]).Some? then Some(n - 1) else Last(actions, n - 1)
  }

  datatype Decision = Decision(accepted: bool, reason: string)

  function SessionDecision(actions: seq<string>): Decision {
    match First(actions, 0)
    case None => Decision(true, "")
    case Some(i) => Decision(false, Rejection(actions[i]).value)
  }

  function ServiceDecision(actions: seq<string>): Decision {
    match Last(actions, |actions|)
    case None => Decision(true, "Message accepted")
    case Some(i) => Decision(false, Rejection(actions[i]).value)
  }

  /** The session stops at the first action that refuses. */
  method ScanForSession(actions: seq<string>) returns (d: Decision)
    ensures d == SessionDecision(actions)
    ensures d.accepted <==> forall i :: 0 <= i < |actions| ==> Harmless(actions[i])
  {
    AcceptedIffHarmless(actions);
    for i := 0 to |actions|
      invariant First(actions, i) == First(actions, 0)
    {
      var rejection := Rejection(actions[i]);
      if rejection.Some? {
        return Decision(false, rejection.value);
      }
    }
    return Decision(true, "");
  }

  /** The service looks at every action, and the last one that refuses gives the reason. */
  method ScanForService(actions: seq<string>) returns (d: Decision)
    ensures d == ServiceDecision(actions)
    ensures d.accepted <==> forall i :: 0 <= i < |actions| ==> Harmless(actions[i])
  {
    AcceptedIffHarmless(actions);
    d := Decision(true, "Message accepted");
    for i := 0 to |actions|
      invariant d == match Last(actions, i)
                     case None => Decision(true, "Message accepted")
                     case Some(k) => Decision(false, Rejection(actions[k]).value)
    {
      var rejection := Rejection(actions[i]);
      if rejection.Some? {
        d := Decision(false, rejection.value);
      }
    }
  }

  predicate Refuses(actions: seq<string>, i: nat)
    requires i < |actions|
  {
    Rejection(actions[i]).Some?
  }

  lemma {:induction false} NoneBeforeFirst(actions: seq<string>, i: nat)
    requires i <= |actions|
    ensures forall k :: i <= k < (if First(actions, i).Some? then First(actions, i).value else |actions|) ==>
              !Refuses(actions, k)
    decreases |actions| - i
  {
    if i < |actions| && First(actions, i) != Some(i) {
      NoneBeforeFirst(actions, i + 1);
    }
  }

  lemma {:induction false} NoneAfterLast(actions: seq<string>, n: nat)
    requires n <= |actions|
    ensures forall k :: (match Last(actions, n) case Some(l) => l + 1 case None => 0) <= k < n ==> !Refuses(actions, k)
  {
    if n > 0 && Last(actions, n) != Some(n - 1) {
      NoneAfterLast(actions, n - 1);
    }
  }

  /**
   * The two entry points accept the same messages, those that no action refuses. When both refuse, the session
   * reports the first refusing action and the service the last.
   */
  lemma DecisionsAgree(actions: seq<string>)
    ensures SessionDecision(actions).accepted == ServiceDecision(actions).accepted
    ensures SessionDecision(actions).accepted <==> forall i :: 0 <= i < |actions| ==> !Refuses(actions, i)
    ensures !SessionDecision(actions).accepted ==>
              exists f, l :: 0 <= f <= l < |actions| && Refuses(actions, f) && Refuses(actions, l)
                && (forall k :: 0 <= k < f || l < k < |actions| ==> !Refuses(actions, k))
                && SessionDecision(actions).reason == Rejection(actions[f]).value
                && ServiceDecision(actions).reason == Rejection(actions[l]).value
  {
    NoneBeforeFirst(actions, 0);
    NoneAfterLast(actions, |actions|);
    var first, last := First(actions, 0), Last(actions, |actions|);
    assert first.Some? ==> Refuses(actions, first.value);
    assert last.Some? ==> Refuses(actions, last.value);
  }

  lemma RefusesIff(actions: seq<string>, i: nat)
    requires i < |actions|
    ensures Refuses(actions, i) <==> !Harmless(actions[i])
  {
    RejectionTexts(actions[i]);
  }

  /** A message is accepted, at either entry point, exactly if none of the actions is one of those that refuse. */
  lemma AcceptedIffHarmless(actions: seq<string>)
    ensures SessionDecision(actions).accepted <==> forall i :: 0 <= i < |actions| ==> Harmless(actions[i])
    ensures ServiceDecision(actions).accepted <==> forall i :: 0 <= i < |actions| ==> Harmless(actions[i])
  {
    DecisionsAgree(actions);
    forall i | 0 <= i < |actions|
      ensures Refuses(actions, i) <==> !Harmless(actions[i])
    {
      RefusesIff(actions, i);
    }
  }

  /** The words that belong to a refusing action. */
  ghost predicate Explains(reason: string, action: string) {
    && (action == "discard" ==> reason == "Message discarded by filter")
    && (action == "quarantine" ==> reason == "Message quarantined")
    && (action == "bounce" ==> reason == "Message bounced")
    && (action == "drop" ==> reason == "Message dropped")
    && ("fileinto:Spam" <= action ==> reason == "Classified as spam")
  }

  /** The session gives the words of the first action that refuses. */
  lemma SessionReason(actions: seq<string>, i: nat)
    requires i < |actions| && !Harmless(actions[i]) && forall k :: 0 <= k < i ==> Harmless(actions[k])
    ensures !SessionDecision(actions).accepted && Explains(SessionDecision(actions).reason, actions[i])
  {
    NoneBeforeFirst(actions, 0);
    RefusesIff(actions, i);
    var f := First(actions, 0);
    assert f.Some?;
    RefusesIff(actions, f.value);
    RejectionTexts(actions[i]);
  }

  /** The service gives the words of the last action that refuses. */
  lemma ServiceReason(actions: seq<string>, i: nat)
    requires i < |actions| && !Harmless(actions[i]) && forall k :: i < k < |actions| ==> Harmless(actions[k])
    ensures !ServiceDecision(actions).accepted && Explains(ServiceDecision(actions).reason, actions[i])
  {
    NoneAfterLast(actions, |actions|);
    RefusesIff(actions, i);
    var l := Last(actions, |actions|);
    assert l.Some?;
    RefusesIff(actions, l.value);
    RejectionTexts(actions[i]);
  }
}
