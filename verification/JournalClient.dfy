/** The caching backend of the client: it polls the journal and keeps its local store up to date. */
module JournalClient {
  import opened TreeModel
  import opened MemoryTrees
  import opened JournalSpec
  import opened JournalTimer

  datatype Request =
    | UpsertNodeRequest(nodes: seq<TreeNode>)
    | DeleteNodeRequest(labelRule: Label)
    | GetPageTreeRequest(labelRule: Label, isJournalRequest: bool)

  class Http3ClientBackend {
    var localBackend: Store
    var lastNotification: SequentialNotification
    var pendingRequests: seq<Request>
    var serverSyncOn: bool
    var journalRequestWaiting: bool
    var lastJournalRequestTime: real
    const journalRequestsPerMinute: nat
    const deletion: Deletion

    constructor (localBackend: Store, deletion: Deletion, journalRequestsPerMinute: nat)
      ensures this.localBackend == localBackend && this.journalRequestsPerMinute == journalRequestsPerMinute
      ensures this.deletion == deletion
      ensures lastNotification == PLACEHOLDER && pendingRequests == []
      ensures serverSyncOn && !journalRequestWaiting && lastJournalRequestTime == 0.0 && TimerState() == FRESH
    {
      this.localBackend, this.deletion := localBackend, deletion;
      this.journalRequestsPerMinute := journalRequestsPerMinute;
      lastNotification, pendingRequests := PLACEHOLDER, [];
      serverSyncOn, journalRequestWaiting, lastJournalRequestTime := true, false, 0.0;
    }

    /** Writes the local store and, while synchronising is on, queues the same write for the server. */
    method UpsertNode(nodes: seq<TreeNode>)
      modifies `localBackend, `pendingRequests
      ensures localBackend == UpsertedAll(old(localBackend), nodes)
      ensures pendingRequests == old(pendingRequests) + if serverSyncOn then [UpsertNodeRequest(nodes)] else []
    {
      for i := 0 to |nodes|
        invariant localBackend == UpsertedAll(old(localBackend), nodes[..i])
        invariant pendingRequests == old(pendingRequests)
      {
        assert nodes[..i + 1][..i] == nodes[..i];
        localBackend := localBackend[nodes[i].labelRule := nodes[i]];
      }
      assert nodes[..|nodes|] == nodes;
      if serverSyncOn {
        pendingRequests := pendingRequests + [UpsertNodeRequest(nodes)];
      }
    }

    method DeleteNode(labelRule: Label)
      modifies `localBackend, `pendingRequests
      ensures localBackend == Deleted(deletion, old(localBackend), labelRule)
      ensures pendingRequests == old(pendingRequests) + if serverSyncOn then [DeleteNodeRequest(labelRule)] else []
    {
      localBackend := Deleted(deletion, localBackend, labelRule);
      if serverSyncOn {
        pendingRequests := pendingRequests + [DeleteNodeRequest(labelRule)];
      }
    }

    /** Applies one notification locally; nothing is sent back to the server. */
    method ProcessOneNotification(n: Notification)
      requires serverSyncOn && WellLabelled(Heard(n))
      modifies `localBackend, `pendingRequests, `serverSyncOn
      ensures localBackend == Applied(Client(deletion), old(localBackend), Heard(n))
      ensures serverSyncOn && pendingRequests == old(pendingRequests)
    {
      if n.labelRule == "" {
        return;
      }
      serverSyncOn := false;
      if n.node.Some? {
        assert [n.node.value][..0] == [];
        UpsertNode([n.node.value]);
      } else {
        DeleteNode(n.labelRule);
      }
      serverSyncOn := true;
    }

    method UpdateLastNotification(n: SequentialNotification)
      modifies `lastNotification
      ensures lastNotification == if n.number == 0xFFFF_FFFF_FFFF_FFFF then old(lastNotification) else n
    {
      if n.number == UNSOLICITED {
        return;
      }
      lastNotification := n;
    }

    method GetMutablePageTree(isJournalRequest: bool)
      modifies `pendingRequests
      ensures pendingRequests == old(pendingRequests) + [GetPageTreeRequest("MutableNodes", isJournalRequest)]
    {
      pendingRequests := pendingRequests + [GetPageTreeRequest(MUTABLE_PAGE, isJournalRequest)];
    }

    /** A gap: the answer starts behind the last index, or one of its solicited entries skips a number. */
    method NotificationGap(notifications: seq<SequentialNotification>) returns (notificationGap: bool)
      requires notifications != []
      ensures notificationGap == HasGap(lastNotification.number, notifications)
    {
      notificationGap := lastNotification.number < notifications[0].number;
      var curNotificationIndex := notifications[0].number;
      if !notificationGap {
        var i := 0;
        while i < |notifications|
          invariant 0 <= i <= |notifications| && !notificationGap
          invariant JumpAfter(notifications[0].number, notifications) ==
                    JumpAfter(curNotificationIndex, notifications[i..])
        {
          assert notifications[i..][1..] == notifications[i + 1..];
          if notifications[i].number == UNSOLICITED {
            i := i + 1;
            continue;
          }
          if notifications[i].number > curNotificationIndex + 1 {
            notificationGap := true;
            break;
          }
          curNotificationIndex := notifications[i].number;
          i := i + 1;
        }
      }
    }

    /**
     The journal response.  Without a gap the local store is the replay of the entries newer than the
     last index; with a gap it is untouched and a page tree is requested.  Either way the last index
     becomes that of the newest solicited entry, and no write is echoed to the server.
     */
    method ProcessJournalResponse(notifications: seq<SequentialNotification>) returns (notificationGap: bool)
      requires serverSyncOn && notifications != []
      requires forall i :: 0 <= i < |notifications| ==> WellLabelled(Heard(notifications[i].notification))
      modifies `localBackend, `pendingRequests, `serverSyncOn, `lastNotification
      ensures notificationGap == HasGap(old(lastNotification).number, notifications)
      ensures notificationGap ==>
                && localBackend == old(localBackend)
                && pendingRequests == old(pendingRequests) + [GetPageTreeRequest(MUTABLE_PAGE, true)]
      ensures !notificationGap ==>
                && localBackend == Replay(Client(deletion), old(localBackend), NewerThan(old(lastNotification).number, notifications))
                && pendingRequests == old(pendingRequests)
      ensures var newest := LastSolicited(notifications);
              lastNotification == if newest.number == UNSOLICITED then old(lastNotification) else newest
      ensures serverSyncOn
    {
      notificationGap := NotificationGap(notifications);
      var lastValidNotification := notifications[0];
      for i := 0 to |notifications|
        invariant serverSyncOn && pendingRequests == old(pendingRequests)
        invariant lastNotification == old(lastNotification)
        invariant localBackend == if notificationGap then old(localBackend)
                                  else Replay(Client(deletion), old(localBackend), NewerThan(lastNotification.number, notifications[..i]))
        invariant lastValidNotification == if i == 0 then notifications[0] else LastSolicited(notifications[..i])
      {
        assert notifications[..i + 1][..i] == notifications[..i];
        ghost var before := NewerThan(lastNotification.number, notifications[..i]);
        if !notificationGap && notifications[i].number > lastNotification.number {
          ProcessOneNotification(notifications[i].notification);
          ReplayMore(Client(deletion), old(localBackend), before, Heard(notifications[i].notification));
        }
        if notifications[i].number == UNSOLICITED {
          continue;
        }
        lastValidNotification := notifications[i];
      }
      assert notifications[..|notifications|] == notifications;
      if notificationGap {
        GetMutablePageTree(true);
      }
      UpdateLastNotification(lastValidNotification);
    }

    /** The page tree response to a journal request. */
    method ProcessPageTreeResponse(nodes: seq<TreeNode>)
      modifies `localBackend, `pendingRequests, `serverSyncOn
      ensures localBackend == UpsertedAll(old(localBackend), nodes)
      ensures serverSyncOn && pendingRequests == old(pendingRequests)
    {
      serverSyncOn := false;
      UpsertNode(nodes);
      serverSyncOn := true;
    }

    function TimerState(): Timer
      reads this
    {
      Timer(journalRequestWaiting, lastJournalRequestTime)
    }

    /**
     At most one poll is outstanding.  The timer takes the time of the call when it arms itself, which it
     does without a rate or with a last time of at most 1.0, and when a poll is due, more than an interval
     after the last time; otherwise it stays.
     */
    method NeedToSendJournalRequest(time: real) returns (needToSend: bool)
      modifies `journalRequestWaiting, `lastJournalRequestTime
      ensures old(journalRequestWaiting) ==>
                !needToSend && journalRequestWaiting && lastJournalRequestTime == old(lastJournalRequestTime)
      ensures !old(journalRequestWaiting) && (journalRequestsPerMinute == 0 || old(lastJournalRequestTime) <= 1.0) ==>
                !needToSend && !journalRequestWaiting && lastJournalRequestTime == time
      ensures !old(journalRequestWaiting) && journalRequestsPerMinute > 0 && old(lastJournalRequestTime) > 1.0 ==>
                var due := IntervalPassed(time, old(lastJournalRequestTime), journalRequestsPerMinute);
                && (needToSend <==> due) && (journalRequestWaiting <==> due)
                && lastJournalRequestTime == if due then time else old(lastJournalRequestTime)
      ensures (TimerState(), needToSend) == Asked(old(TimerState()), journalRequestsPerMinute, time)
    {
      if journalRequestWaiting {
        return false;
      }
      if journalRequestsPerMinute == 0 || lastJournalRequestTime <= 1.0 {
        lastJournalRequestTime := time;
        return false;
      }
      needToSend := IntervalPassed(time, lastJournalRequestTime, journalRequestsPerMinute);
      if needToSend {
        journalRequestWaiting := true;
        lastJournalRequestTime := time;
      }
    }

    /** A blocking client that waits for a poll has the next one go out at once, by setting the last time back. */
    method HurryJournalRequest()
      modifies `lastJournalRequestTime
      ensures lastJournalRequestTime == if journalRequestWaiting then 2.0 else old(lastJournalRequestTime)
      ensures TimerState() == Hurried(old(TimerState()))
    {
      if journalRequestWaiting {
        lastJournalRequestTime := 2.0;
      }
    }

    method SetJournalRequestComplete()
      modifies `journalRequestWaiting
      ensures !journalRequestWaiting && TimerState() == old(TimerState()).(waiting := false)
    {
      journalRequestWaiting := false;
    }

    /** The stream of a poll delivers its response: the response is processed, and the next poll may go out. */
    method JournalStreamHandler(notifications: seq<SequentialNotification>)
      requires serverSyncOn && notifications != []
      requires forall i :: 0 <= i < |notifications| ==> WellLabelled(Heard(notifications[i].notification))
      modifies `localBackend, `pendingRequests, `serverSyncOn, `lastNotification, `journalRequestWaiting
      ensures serverSyncOn && !journalRequestWaiting
      ensures localBackend ==
              if HasGap(old(lastNotification).number, notifications) then old(localBackend)
              else Replay(Client(deletion), old(localBackend), NewerThan(old(lastNotification).number, notifications))
      ensures pendingRequests == old(pendingRequests) +
              if HasGap(old(lastNotification).number, notifications) then [GetPageTreeRequest(MUTABLE_PAGE, true)] else []
      ensures var newest := LastSolicited(notifications);
              lastNotification == if newest.number == UNSOLICITED then old(lastNotification) else newest
    {
      var _ := ProcessJournalResponse(notifications);
      SetJournalRequestComplete();
    }
  }
}
