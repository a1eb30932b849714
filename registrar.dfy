/** The registrar cross-reference (`get_registered_domains`): the marker-driven
    walk over the registrar's paginated domain listing. The service is given as
    the sequence of replies its successive `list_domains` calls return. */
module Registrar {
  import opened Common
  import opened Names

  /** One element of a reply's `Domains` list; `DomainName` may be missing. */
  datatype DomainEntry = DomainEntry(domainName: Option<string>)

  /** What one `list_domains` call came back with: an error, or a page of
      entries with an optional `NextPageMarker`. A missing `Domains` list is
      the empty sequence. */
  datatype ListDomainsReply =
    | ListFailed
    | DomainsPage(domains: seq<DomainEntry>, nextPageMarker: Option<string>)

  /** The registrar knowledge of one account: the normalised registered names,
      and whether the whole listing was read. */
  datatype RegistrarIndex = RegistrarIndex(domains: set<string>, available: bool)

  /** `d.get("DomainName", "").rstrip(".")` */
  function EntryName(e: DomainEntry): string {
    TrimDots(match e.domainName case Some(n) => n case None => "")
  }

  /** The names one entry adds: its normalised name, unless that is empty. */
  function EntryNames(e: DomainEntry): set<string> {
    var name := EntryName(e);
    if name == "" then {} else {name}
  }

  /** The names a page of entries adds. */
  function PageNames(entries: seq<DomainEntry>): set<string> {
    if entries == [] then {}
    else PageNames(entries[..|entries| - 1]) + EntryNames(entries[|entries| - 1])
  }

  /** The names a reply adds; a failed call adds none. */
  function ReplyNames(reply: ListDomainsReply): set<string> {
    if reply.DomainsPage? then PageNames(reply.domains) else {}
  }

  /** The names a sequence of replies adds. */
  function Gathered(replies: seq<ListDomainsReply>): set<string> {
    if replies == [] then {}
    else Gathered(replies[..|replies| - 1]) + ReplyNames(replies[|replies| - 1])
  }

  /** A marker is followed only when it is present and non-empty (`if not marker`). */
  predicate IsMarker(m: Option<string>) {
    m.Some? && m.value != ""
  }

  /** After this reply the walk asks for another page. */
  predicate Continues(reply: ListDomainsReply) {
    reply.DomainsPage? && IsMarker(reply.nextPageMarker)
  }

  /** The service eventually fails or stops handing out markers; otherwise the
      walk never ends. */
  predicate WalkEnds(replies: seq<ListDomainsReply>) {
    exists k :: 0 <= k < |replies| && !Continues(replies[k])
  }

  /** The index of the reply that ends the walk: the first one that failed or
      carries no marker. */
  function LastReply(replies: seq<ListDomainsReply>): (n: nat)
    requires WalkEnds(replies)
    ensures n < |replies| && !Continues(replies[n])
    ensures forall j :: 0 <= j < n ==> Continues(replies[j])
  {
    if !Continues(replies[0]) then 0
    else
      assert WalkEnds(replies[1..]) by {
        var k :| 0 <= k < |replies| && !Continues(replies[k]);
        assert replies[1..][k - 1] == replies[k];
      }
      1 + LastReply(replies[1..])
  }

  /** What the walk yields: nothing and unavailable when the client cannot be
      built; otherwise the names of every reply up to the one that ends the
      walk, available exactly when that reply is a page. */
  function Lookup(clientOk: bool, replies: seq<ListDomainsReply>): RegistrarIndex
    requires clientOk ==> WalkEnds(replies)
  {
    if !clientOk then RegistrarIndex({}, false)
    else
      var n := LastReply(replies);
      RegistrarIndex(Gathered(replies[..n + 1]), replies[n].DomainsPage?)
  }

  /** `resp.get("NextPageMarker")`: the marker a reply hands out, if any. */
  function Marker(reply: ListDomainsReply): Option<string> {
    if reply.DomainsPage? then reply.nextPageMarker else None
  }

  /** The markers the first `count` `list_domains` calls are issued with: none
      for the first call, and the marker of the reply before for every later
      one. */
  function Requests(replies: seq<ListDomainsReply>, count: nat): seq<Option<string>>
    requires count <= |replies| + 1
  {
    if count == 0 then []
    else Requests(replies, count - 1) + [if count == 1 then None else Marker(replies[count - 2])]
  }

  /** The first call carries no marker and call `j + 1` carries the marker
      reply `j` handed out. */
  lemma {:induction false} RequestsSpec(replies: seq<ListDomainsReply>, count: nat)
    requires count <= |replies| + 1
    ensures |Requests(replies, count)| == count
    ensures count > 0 ==> Requests(replies, count)[0] == None
    ensures forall j :: 0 <= j < count - 1 ==> Requests(replies, count)[j + 1] == Marker(replies[j])
  {
    if count > 0 {
      RequestsSpec(replies, count - 1);
    }
  }

  /** One more reply adds its names. */
  lemma {:induction false} GatheredStep(replies: seq<ListDomainsReply>, i: nat)
    requires i < |replies|
    ensures Gathered(replies[..i + 1]) == Gathered(replies[..i]) + ReplyNames(replies[i])
  {
    assert replies[..i + 1][..i] == replies[..i];
  }

  /** The inner loop of `get_registered_domains` over one page: the non-empty
      normalised name of every entry is added to the set. */
  method AddPageNames(domains0: set<string>, entries: seq<DomainEntry>) returns (domains: set<string>)
    ensures domains == domains0 + PageNames(entries)
  {
    domains := domains0;
    var k := 0;
    while k < |entries|
      invariant 0 <= k <= |entries|
      invariant domains == domains0 + PageNames(entries[..k])
    {
      assert entries[..k + 1][..k] == entries[..k];
      var name := EntryName(entries[k]);
      if name != "" {
        domains := domains + {name};
      }
      k := k + 1;
    }
    assert entries[..k] == entries;
  }

  /** The walk of `get_registered_domains`. `clientOk` is whether the registrar
      client could be built; `replies[i]` is what the (i+1)-th `list_domains`
      call returns. Besides the index it returns the marker each call was
      issued with (None for a call without one). */
  method GetRegisteredDomains(clientOk: bool, replies: seq<ListDomainsReply>)
    returns (domains: set<string>, available: bool, requests: seq<Option<string>>)
    requires clientOk ==> WalkEnds(replies)
    ensures RegistrarIndex(domains, available) == Lookup(clientOk, replies)
    ensures !clientOk ==> requests == []
    ensures clientOk ==> requests == Requests(replies, LastReply(replies) + 1)
  {
    domains, available, requests := {}, false, [];
    if !clientOk {
      return;
    }
    ghost var n := LastReply(replies);
    var marker: Option<string> := None;
    var i := 0;
    while true
      invariant 0 <= i <= n
      invariant domains == Gathered(replies[..i])
      invariant !available
      invariant requests == Requests(replies, i)
      invariant marker == (if i == 0 then None else Marker(replies[i - 1]))
      decreases n - i
    {
      requests := requests + [if IsMarker(marker) then marker else None];
      var reply := replies[i];
      GatheredStep(replies, i);
      if reply.ListFailed? {
        assert i == n;
        return;
      }
      domains := AddPageNames(domains, reply.domains);
      marker := reply.nextPageMarker;
      if !IsMarker(marker) {
        assert i == n;
        break;
      }
      i := i + 1;
    }
    available := true;
  }

  /** Some entry of `entries` has the normalised name `x`. */
  predicate Lists(entries: seq<DomainEntry>, x: string) {
    exists k :: 0 <= k < |entries| && EntryName(entries[k]) == x
  }

  /** A page yields exactly the non-empty normalised names of its entries. */
  lemma {:induction false} PageNamesMembers(entries: seq<DomainEntry>, x: string)
    ensures x in PageNames(entries) <==> x != "" && Lists(entries, x)
  {
    if entries != [] {
      var init, last := entries[..|entries| - 1], entries[|entries| - 1];
      PageNamesMembers(init, x);
      if Lists(init, x) {
        var k :| 0 <= k < |init| && EntryName(init[k]) == x;
        assert entries[k] == init[k];
      }
      if Lists(entries, x) && EntryName(last) != x {
        var k :| 0 <= k < |entries| && EntryName(entries[k]) == x;
        assert k < |init| && init[k] == entries[k];
      }
    }
  }

  /** Some reply of `replies` yields the name `x`. */
  predicate Mentions(replies: seq<ListDomainsReply>, x: string) {
    exists j :: 0 <= j < |replies| && x in ReplyNames(replies[j])
  }

  /** A sequence of replies yields exactly the names of its individual replies. */
  lemma {:induction false} GatheredMembers(replies: seq<ListDomainsReply>, x: string)
    ensures x in Gathered(replies) <==> Mentions(replies, x)
  {
    if replies != [] {
      var init, last := replies[..|replies| - 1], replies[|replies| - 1];
      GatheredMembers(init, x);
      if Mentions(init, x) {
        var j :| 0 <= j < |init| && x in ReplyNames(init[j]);
        assert replies[j] == init[j];
      }
      if Mentions(replies, x) && x !in ReplyNames(last) {
        var j :| 0 <= j < |replies| && x in ReplyNames(replies[j]);
        assert j < |init| && init[j] == replies[j];
      }
    }
  }

  /** Pagination completeness: a name is in the index exactly when the client
      was built and some page up to the end of the walk lists an entry whose
      normalised name it is; empty names never are. */
  lemma {:induction false} LookupMembers(clientOk: bool, replies: seq<ListDomainsReply>, x: string)
    requires clientOk ==> WalkEnds(replies)
    ensures x in Lookup(clientOk, replies).domains <==>
              clientOk && x != "" &&
              exists j :: 0 <= j <= LastReply(replies) && replies[j].DomainsPage? &&
                          Lists(replies[j].domains, x)
  {
    if clientOk {
      var n := LastReply(replies);
      var walked := replies[..n + 1];
      GatheredMembers(walked, x);
      if Mentions(walked, x) {
        var j :| 0 <= j < |walked| && x in ReplyNames(walked[j]);
        PageNamesMembers(walked[j].domains, x);
        assert replies[j] == walked[j];
      }
      if x != "" && exists j :: 0 <= j <= n && replies[j].DomainsPage? && Lists(replies[j].domains, x) {
        var j :| 0 <= j <= n && replies[j].DomainsPage? && Lists(replies[j].domains, x);
        PageNamesMembers(replies[j].domains, x);
        assert walked[j] == replies[j];
      }
    }
  }

  /** Every name in the index is non-empty and carries no trailing dot. */
  lemma {:induction false} LookupNormalised(clientOk: bool, replies: seq<ListDomainsReply>, x: string)
    requires clientOk ==> WalkEnds(replies)
    requires x in Lookup(clientOk, replies).domains
    ensures x != "" && Normalised(x)
  {
    LookupMembers(clientOk, replies, x);
    var j :| 0 <= j <= LastReply(replies) && replies[j].DomainsPage? && Lists(replies[j].domains, x);
    var k :| 0 <= k < |replies[j].domains| && EntryName(replies[j].domains[k]) == x;
  }

  /** The index is available exactly when the client was built and every call
      of the walk succeeded. */
  lemma {:induction false} LookupAvailable(clientOk: bool, replies: seq<ListDomainsReply>)
    requires clientOk ==> WalkEnds(replies)
    ensures Lookup(clientOk, replies).available <==>
              clientOk && forall j :: 0 <= j <= LastReply(replies) ==> replies[j].DomainsPage?
  {
  }

  /** A walk that fails keeps only the names of the pages read before the
      failing call. */
  lemma {:induction false} LookupAfterFailure(clientOk: bool, replies: seq<ListDomainsReply>)
    requires clientOk ==> WalkEnds(replies)
    requires !Lookup(clientOk, replies).available
    ensures clientOk ==> Lookup(clientOk, replies).domains == Gathered(replies[..LastReply(replies)])
    ensures !clientOk ==> Lookup(clientOk, replies).domains == {}
  {
    if clientOk {
      var n := LastReply(replies);
      assert replies[..n + 1][..n] == replies[..n];
    }
  }

  /** A page of two entries whose names need no normalisation yields both. */
  lemma {:induction false} PageOfTwo(a: string, b: string)
    requires a != "" && Normalised(a) && b != "" && Normalised(b)
    ensures PageNames([DomainEntry(Some(a)), DomainEntry(Some(b))]) == {a, b}
  {
    TrimDotsOfNormalised(a);
    TrimDotsOfNormalised(b);
    var entries := [DomainEntry(Some(a)), DomainEntry(Some(b))];
    assert EntryName(entries[0]) == a && EntryName(entries[1]) == b;
    assert entries[..1][..0] == [];
    assert PageNames(entries[..1]) == {a};
  }

  /** Three pages of two distinct names each, linked by markers, give an
      available index of six names: nothing is lost or counted twice across
      pages. */
  lemma {:induction false} ThreePagesOfTwo(replies: seq<ListDomainsReply>)
    requires replies == [
      DomainsPage([DomainEntry(Some("a.com")), DomainEntry(Some("b.com"))], Some("p2")),
      DomainsPage([DomainEntry(Some("c.com")), DomainEntry(Some("d.com"))], Some("p3")),
      DomainsPage([DomainEntry(Some("e.com")), DomainEntry(Some("f.com"))], None)]
    ensures WalkEnds(replies)
    ensures Lookup(true, replies).available && |Lookup(true, replies).domains| == 6
  {
    assert !Continues(replies[2]);
    assert LastReply(replies) == 2;
    PageOfTwo("a.com", "b.com");
    PageOfTwo("c.com", "d.com");
    PageOfTwo("e.com", "f.com");
    assert replies[..3] == replies;
    assert replies[..3][..2] == replies[..2];
    assert replies[..2][..1] == replies[..1];
    assert replies[..1][..0] == [];
    assert Gathered(replies[..1]) == {"a.com", "b.com"};
    assert Gathered(replies[..2]) == {"a.com", "b.com", "c.com", "d.com"};
    assert Gathered(replies) == {"a.com", "b.com", "c.com", "d.com", "e.com", "f.com"};
  }
}
