/** The endpoint filter of the proxy: which pod has which address, and which endpoints are passed on (proxy.go). */
module Proxy {
  import opened Options
  import opened OpenFlow

  datatype Phase = Pending | Running | Succeeded | Failed | Unknown

  /** ip is None while the pod has no address. */
  datatype Pod = Pod(uid: nat, namespace: string, ip: Option<nat>, phase: Phase)

  datatype Event = Changed(pod: Pod) | Deleted(pod: Pod)

  predicate Live(phase: Phase)
  {
    phase.Pending? || phase.Running?
  }

  // ---------------------------------------------------------------- tracking

  function TrackPod(pods: map<nat, Pod>, pod: Pod): map<nat, Pod>
  {
    if pod.ip.None? then pods
    else if Live(pod.phase) then pods[pod.ip.value := pod]
    else if pod.ip.value in pods && pods[pod.ip.value].uid == pod.uid then pods - {pod.ip.value}
    else pods
  }

  function UnTrackPod(pods: map<nat, Pod>, pod: Pod): map<nat, Pod>
  {
    if pod.ip.Some? && pod.ip.value in pods && pods[pod.ip.value].uid == pod.uid then pods - {pod.ip.value} else pods
  }

  function Tracked(es: seq<Event>): map<nat, Pod>
    decreases |es|
  {
    if es == [] then map[]
    else
      var pods := Tracked(es[..|es| - 1]);
      match es[|es| - 1]
      case Changed(pod) => TrackPod(pods, pod)
      case Deleted(pod) => UnTrackPod(pods, pod)
  }

  // ---------------------------------------------------------------- filtering

  predicate Inside(net: Net, ip: Option<nat>)
  {
    ip.Some? && net.Contains(ip.value)
  }

  /** Addresses that cannot be parsed are None. */
  datatype Endpoints = Endpoints(namespace: string, subsets: seq<seq<Option<nat>>>)

  datatype Networks = Networks(cluster: Net, service: Net)

  predicate Acceptable(nets: Networks, pods: map<nat, Pod>, namespace: string, ip: Option<nat>)
  {
    && !Inside(nets.service, ip)
    && (Inside(nets.cluster, ip) ==> ip.value in pods && pods[ip.value].namespace == namespace)
  }

  ghost predicate Kept(nets: Networks, pods: map<nat, Pod>, ep: Endpoints)
  {
    forall i, j :: 0 <= i < |ep.subsets| && 0 <= j < |ep.subsets[i]| ==>
      Acceptable(nets, pods, ep.namespace, ep.subsets[i][j])
  }

  ghost function Filtered(nets: Networks, pods: map<nat, Pod>, eps: seq<Endpoints>): seq<Endpoints>
    decreases |eps|
  {
    if eps == [] then []
    else
      Filtered(nets, pods, eps[..|eps| - 1])
      + if Kept(nets, pods, eps[|eps| - 1]) then [eps[|eps| - 1]] else []
  }

  class ProxyPlugin {
    var podsByIP: map<nat, Pod>

    constructor ()
      ensures podsByIP == map[]
    {
      podsByIP := map[];
    }

    method Track(pod: Pod)
      modifies this
      ensures podsByIP == TrackPod(old(podsByIP), pod)
    {
      if pod.ip.None? {
        return;
      }
      var ip := pod.ip.value;
      if Live(pod.phase) {
        podsByIP := podsByIP[ip := pod];
      } else if ip in podsByIP && podsByIP[ip].uid == pod.uid {
        podsByIP := podsByIP - {ip};
      }
    }

    method UnTrack(pod: Pod)
      modifies this
      ensures podsByIP == UnTrackPod(old(podsByIP), pod)
    {
      if pod.ip.Some? && pod.ip.value in podsByIP && podsByIP[pod.ip.value].uid == pod.uid {
        podsByIP := podsByIP - {pod.ip.value};
      }
    }

    /** The watch loop: after the events es the map is Tracked(es). */
    method WatchPods(es: seq<Event>)
      requires podsByIP == map[]
      modifies this
      ensures podsByIP == Tracked(es)
    {
      var i := 0;
      while i < |es|
        invariant 0 <= i <= |es|
        invariant podsByIP == Tracked(es[..i])
      {
        assert es[..i + 1][..i] == es[..i];
        match es[i] {
          case Changed(pod) => Track(pod);
          case Deleted(pod) => UnTrack(pod);
        }
        i := i + 1;
      }
      assert es[..i] == es;
    }

    /** nets is None if the network information cannot be fetched: then nothing is passed on. */
    method OnEndpointsUpdate(nets: Option<Networks>, allEndpoints: seq<Endpoints>) returns (r: Option<seq<Endpoints>>)
      ensures r == if nets.None? then None else Some(Filtered(nets.value, podsByIP, allEndpoints))
    {
      if nets.None? {
        return None;
      }
      var ni := nets.value;
      var filtered: seq<Endpoints> := [];
      var k := 0;
      while k < |allEndpoints|
        invariant 0 <= k <= |allEndpoints|
        invariant filtered == Filtered(ni, podsByIP, allEndpoints[..k])
      {
        var ep := allEndpoints[k];
        assert allEndpoints[..k + 1][..k] == allEndpoints[..k];
        k := k + 1;
        var kept := true;
        var i := 0;
        while i < |ep.subsets| && kept
          invariant 0 <= i <= |ep.subsets|
          invariant kept ==> forall a, b :: 0 <= a < i && 0 <= b < |ep.subsets[a]| ==>
                               Acceptable(ni, podsByIP, ep.namespace, ep.subsets[a][b])
          invariant !kept ==> !Kept(ni, podsByIP, ep)
        {
          var j := 0;
          while j < |ep.subsets[i]| && kept
            invariant 0 <= j <= |ep.subsets[i]|
            invariant kept ==> forall b :: 0 <= b < j ==> Acceptable(ni, podsByIP, ep.namespace, ep.subsets[i][b])
            invariant !kept ==> !Kept(ni, podsByIP, ep)
          {
            var ip := ep.subsets[i][j];
            if Inside(ni.service, ip) {
              kept := false;
            } else if Inside(ni.cluster, ip) && (ip.value !in podsByIP || podsByIP[ip.value].namespace != ep.namespace) {
              kept := false;
            }
            assert kept <==> Acceptable(ni, podsByIP, ep.namespace, ip);
            j := j + 1;
          }
          i := i + 1;
        }
        if kept {
          filtered := filtered + [ep];
        }
      }
      assert allEndpoints[..k] == allEndpoints;
      r := Some(filtered);
    }
  }

  // ---------------------------------------------------------------- who has an address

  predicate Claims(e: Event, ip: nat)
  {
    e.Changed? && Live(e.pod.phase) && e.pod.ip == Some(ip)
  }

  /** The pod's last report or its deletion. */
  predicate Ends(e: Event, uid: nat)
  {
    e.pod.uid == uid && (e.Deleted? || !Live(e.pod.phase))
  }

  /** pod was the last to report that it uses ip, and has not ended since. */
  ghost predicate Owns(es: seq<Event>, ip: nat, pod: Pod)
  {
    exists i :: 0 <= i < |es| && OwnsSince(es, ip, pod, i)
  }

  ghost predicate OwnsSince(es: seq<Event>, ip: nat, pod: Pod, i: nat)
    requires i < |es|
  {
    && Claims(es[i], ip) && es[i].pod == pod
    && forall k :: i < k < |es| ==> !Claims(es[k], ip) && !Ends(es[k], pod.uid)
  }

  /** A pod that has an address keeps it. */
  ghost predicate Fixed(es: seq<Event>)
  {
    forall i, k :: 0 <= i < k < |es| && es[i].pod.uid == es[k].pod.uid && es[i].pod.ip.Some? ==>
      es[k].pod.ip == es[i].pod.ip
  }

  /** podsByIP names exactly the owner, whatever ends are reported late. */
  lemma {:induction false} TracksOwners(es: seq<Event>, ip: nat, pod: Pod)
    requires Fixed(es)
    ensures ip in Tracked(es) && Tracked(es)[ip] == pod <==> Owns(es, ip, pod)
    decreases |es|
  {
    if es == [] {
    } else {
      var init, e := es[..|es| - 1], es[|es| - 1];
      TracksOwners(init, ip, pod);
      if Claims(e, ip) {
        OwnedLast(es, ip, pod);
      } else {
        OwnedBefore(es, ip, pod);
        if Owns(init, ip, pod) {
          var i :| 0 <= i < |init| && OwnsSince(init, ip, pod, i);
          assert es[i].pod.uid == pod.uid && es[i].pod.ip == Some(ip);
        }
      }
    }
  }

  lemma OwnedLast(es: seq<Event>, ip: nat, pod: Pod)
    requires es != [] && Claims(es[|es| - 1], ip)
    ensures Owns(es, ip, pod) <==> es[|es| - 1].pod == pod
  {
    if es[|es| - 1].pod == pod {
      assert OwnsSince(es, ip, pod, |es| - 1);
    }
  }

  lemma OwnedBefore(es: seq<Event>, ip: nat, pod: Pod)
    requires es != [] && !Claims(es[|es| - 1], ip)
    ensures Owns(es, ip, pod) <==> Owns(es[..|es| - 1], ip, pod) && !Ends(es[|es| - 1], pod.uid)
  {
    var init := es[..|es| - 1];
    if Owns(es, ip, pod) {
      var i :| 0 <= i < |es| && OwnsSince(es, ip, pod, i);
      assert OwnsSince(init, ip, pod, i);
    } else if Owns(init, ip, pod) {
      var i :| 0 <= i < |init| && OwnsSince(init, ip, pod, i);
      assert OwnsSince(es, ip, pod, i) || Ends(es[|es| - 1], pod.uid);
    }
  }

  /** Once another pod uses an address, the one before it no longer reports that it does. */
  ghost predicate HandedOver(es: seq<Event>, ip: nat)
  {
    forall i, j, k ::
      (0 <= i < j < k < |es| && Claims(es[i], ip) && Claims(es[j], ip) && Claims(es[k], ip)
       && es[i].pod.uid != es[j].pod.uid) ==> es[k].pod.uid != es[i].pod.uid
  }

  /** Then the owner is the newest pod on the address: all others claimed it before its first claim only. */
  lemma OwnerIsNewest(es: seq<Event>, ip: nat, pod: Pod, j: nat, k: nat)
    requires HandedOver(es, ip) && Owns(es, ip, pod)
    requires j < |es| && k < |es| && Claims(es[j], ip) && Claims(es[k], ip)
    requires es[j].pod.uid == pod.uid && es[k].pod.uid != pod.uid
    ensures k < j
  {
    var i :| 0 <= i < |es| && OwnsSince(es, ip, pod, i);
    assert j <= i && k <= i && es[i].pod.uid == es[j].pod.uid;
  }

  // ---------------------------------------------------------------- what is passed on

  ghost predicate OwnedFrom(es: seq<Event>, namespace: string, ip: nat)
  {
    exists pod :: Owns(es, ip, pod) && pod.namespace == namespace
  }

  /** No address of the service network, and only addresses of the cluster network that a pod of the namespace owns. */
  ghost predicate Honest(nets: Networks, es: seq<Event>, ep: Endpoints)
  {
    forall i, j :: 0 <= i < |ep.subsets| && 0 <= j < |ep.subsets[i]| ==>
      && !Inside(nets.service, ep.subsets[i][j])
      && (Inside(nets.cluster, ep.subsets[i][j]) ==> OwnedFrom(es, ep.namespace, ep.subsets[i][j].value))
  }

  lemma KeptIsHonest(nets: Networks, es: seq<Event>, ep: Endpoints)
    requires Fixed(es)
    ensures Kept(nets, Tracked(es), ep) <==> Honest(nets, es, ep)
  {
    var pods := Tracked(es);
    forall ip: nat
      ensures OwnedFrom(es, ep.namespace, ip) <==> ip in pods && pods[ip].namespace == ep.namespace
    {
      if ip in pods {
        TracksOwners(es, ip, pods[ip]);
      }
      if pod :| Owns(es, ip, pod) && pod.namespace == ep.namespace {
        TracksOwners(es, ip, pod);
      }
    }
  }

  /** places lists, in order and without gaps, the endpoints that are passed on. */
  ghost predicate Subsequence(all: seq<Endpoints>, places: seq<nat>, chosen: seq<Endpoints>)
  {
    && |places| == |chosen|
    && (forall a :: 0 <= a < |places| ==> places[a] < |all| && all[places[a]] == chosen[a])
    && (forall a, b :: 0 <= a < b < |places| ==> places[a] < places[b])
  }

  /** What the base handler gets are the honest endpoints, each once, in the order given. */
  lemma {:induction false} PassesOnTheHonest(nets: Networks, es: seq<Event>, all: seq<Endpoints>) returns (places: seq<nat>)
    requires Fixed(es)
    ensures Subsequence(all, places, Filtered(nets, Tracked(es), all))
    ensures forall k: nat :: k in places <==> k < |all| && Honest(nets, es, all[k])
    decreases |all|
  {
    hide Kept, Honest, Tracked, Subsequence;
    if all == [] {
      places := [];
      NoneChosen(all);
    } else {
      var last := |all| - 1;
      var some := PassesOnTheHonest(nets, es, all[..last]);
      KeptIsHonest(nets, es, all[last]);
      var kept := Kept(nets, Tracked(es), all[last]);
      OneMore(all, some, Filtered(nets, Tracked(es), all[..last]), kept);
      places := some + if kept then [last] else [];
      forall k: nat
        ensures k in places <==> k < |all| && Honest(nets, es, all[k])
      {
        if k < last {
          assert all[..last][k] == all[k];
        }
      }
    }
  }

  lemma NoneChosen(all: seq<Endpoints>)
    ensures Subsequence(all, [], [])
  {
  }

  lemma OneMore(all: seq<Endpoints>, some: seq<nat>, chosen: seq<Endpoints>, kept: bool)
    requires all != [] && Subsequence(all[..|all| - 1], some, chosen)
    ensures Subsequence(all, some + (if kept then [|all| - 1] else []), chosen + if kept then [all[|all| - 1]] else [])
  {
    var last := |all| - 1;
    assert forall k: nat :: k < last ==> all[..last][k] == all[k];
  }
}
