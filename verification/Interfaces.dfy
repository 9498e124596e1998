/** ioctl/get_ifi_info.c: the interface configuration is fetched into a buffer grown until it is large
    enough, then turned into a linked list. */
module Interfaces {
  import opened Bytes

  // -------------------------------------------------------------------- the buffer

  function Total(sizes: seq<nat>): nat {
    if sizes == [] then 0 else Total(sizes[..|sizes| - 1]) + sizes[|sizes| - 1]
  }

  lemma {:induction false} TotalGrows(sizes: seq<nat>, a: nat, b: nat)
    requires a <= b <= |sizes|
    ensures Total(sizes[..a]) <= Total(sizes[..b])
  {
    if a == b {
    } else {
      assert sizes[..b][..b - 1] == sizes[..b - 1];
      TotalGrows(sizes, a, b - 1);
    }
  }

  /** How many whole records the kernel can put into `len` bytes. */
  function Fitting(sizes: seq<nat>, len: nat, from: nat): (n: nat)
    requires from <= |sizes| && Total(sizes[..from]) <= len
    ensures from <= n <= |sizes| && Total(sizes[..n]) <= len
    ensures n < |sizes| ==> Total(sizes[..n + 1]) > len
    decreases |sizes| - from
  {
    if from < |sizes| && Total(sizes[..from + 1]) <= len then Fitting(sizes, len, from + 1) else from
  }

  /** SIOCGIFCONF: the length of the longest prefix of whole records that fits, or EINVAL from a kernel
      that wants at least `least` bytes. */
  function IfConf(sizes: seq<nat>, least: nat, len: nat): Option<nat> {
    if len < least then None else Some(Total(sizes[..Fitting(sizes, len, 0)]))
  }

  /** The buffer of the loop's turn `k`, counted from 0. */
  function BufLen(ifreq: nat, k: nat): nat {
    if k == 0 then 100 * ifreq else BufLen(ifreq, k - 1) + 10 * ifreq
  }

  /** Record `n` does not fit at turn `k`, which the kernel accepts; and the ones before it were all there
      at the turn before already, or there are none. */
  ghost predicate Straddles(sizes: seq<nat>, least: nat, ifreq: nat, n: nat, k: nat)
    requires n < |sizes|
  {
    && least <= BufLen(ifreq, k) < Total(sizes[..n + 1])
    && (n == 0 || (k > 0 && least <= BufLen(ifreq, k - 1) && Total(sizes[..n]) <= BufLen(ifreq, k - 1)))
  }

  /** Some record is too long for the loop: one that begins before a growth step of ten ifreq structures and
      ends behind it. */
  ghost predicate Straddled(sizes: seq<nat>, least: nat, ifreq: nat) {
    exists n, k: nat :: 0 <= n < |sizes| && Straddles(sizes, least, ifreq, n, k)
  }

  /** What the loop remembers when turn `k` begins: the length got at the turn before, or none yet. So far no
      record has straddled. */
  ghost predicate Growing(sizes: seq<nat>, least: nat, ifreq: nat, k: nat, lastlen: nat) {
    && lastlen == (if k > 0 && least <= BufLen(ifreq, k - 1) then Got(sizes, BufLen(ifreq, k - 1)) else 0)
    && (k > 0 && least <= BufLen(ifreq, k - 1) ==> lastlen > 0)
    && forall n, j: nat :: 0 <= n < |sizes| && j < k ==> !Straddles(sizes, least, ifreq, n, j)
  }

  /** The length of what fits. */
  function Got(sizes: seq<nat>, len: nat): nat {
    Total(sizes[..Fitting(sizes, len, 0)])
  }

  /** Lines 15 to 36. The loop ends, and what it has got is everything if and only if no record straddles a
      growth step. */
  method FetchConfig(sizes: seq<nat>, least: nat, ifreq: nat) returns (ifcLen: nat, bufLen: nat)
    requires ifreq > 0 && forall i :: 0 <= i < |sizes| ==> 0 < sizes[i]
    ensures IfConf(sizes, least, bufLen) == Some(ifcLen) && ifcLen <= bufLen
    ensures ifcLen == Total(sizes) <==> !Straddled(sizes, least, ifreq)
  {
    var lastlen, len := 0, 100 * ifreq;
    ghost var k := 0;
    ghost var enough := Total(sizes) + least;
    while true
      invariant len == BufLen(ifreq, k) && Growing(sizes, least, ifreq, k, lastlen)
      decreases enough + 200 * ifreq - len
    {
      var r := IfConf(sizes, least, len);
      Turn(sizes, least, ifreq, k, lastlen);
      if r.Some? {
        if r.value == lastlen {
          return lastlen, len;
        }
        lastlen := r.value;
      }
      len := len + 10 * ifreq;
      k := k + 1;
    }
  }

  lemma {:induction false} BufLenGrows(ifreq: nat, j: nat, k: nat)
    requires j <= k
    ensures BufLen(ifreq, j) <= BufLen(ifreq, k)
  {
    if j == k {
    } else {
      BufLenGrows(ifreq, j, k - 1);
    }
  }

  lemma FittingIs(sizes: seq<nat>, len: nat, n: nat)
    requires n <= |sizes| && Total(sizes[..n]) <= len && (n < |sizes| ==> Total(sizes[..n + 1]) > len)
    ensures Fitting(sizes, len, 0) == n
  {
    var m := Fitting(sizes, len, 0);
    if m < n {
      TotalGrows(sizes, m + 1, n);
    } else if n < m {
      TotalGrows(sizes, n + 1, m);
    }
  }

  lemma FittingGrows(sizes: seq<nat>, before: nat, len: nat)
    requires before <= len
    ensures Fitting(sizes, before, 0) <= Fitting(sizes, len, 0) && Got(sizes, before) <= Got(sizes, len)
  {
    var m, n := Fitting(sizes, before, 0), Fitting(sizes, len, 0);
    if n < m {
      TotalGrows(sizes, n + 1, m);
    } else {
      TotalGrows(sizes, m, n);
    }
  }

  lemma NothingGot(sizes: seq<nat>, n: nat)
    requires n <= |sizes| && (forall i :: 0 <= i < |sizes| ==> 0 < sizes[i]) && Total(sizes[..n]) == 0
    ensures n == 0
  {
    if n > 0 {
      TotalNext(sizes, n - 1);
    }
  }

  /** The turn's length is a new one, so nothing straddles at it. */
  lemma GoesOn(sizes: seq<nat>, least: nat, ifreq: nat, k: nat, lastlen: nat)
    requires Growing(sizes, least, ifreq, k, lastlen)
    requires least <= BufLen(ifreq, k) && Got(sizes, BufLen(ifreq, k)) != lastlen
    ensures Growing(sizes, least, ifreq, k + 1, Got(sizes, BufLen(ifreq, k)))
  {
    var len := BufLen(ifreq, k);
    if lastlen > 0 {
      FittingGrows(sizes, BufLen(ifreq, k - 1), len);
    }
    forall n | 0 <= n < |sizes|
      ensures !Straddles(sizes, least, ifreq, n, k)
    {
      if Straddles(sizes, least, ifreq, n, k) {
        FittingIs(sizes, len, n);
        if n > 0 {
          FittingIs(sizes, BufLen(ifreq, k - 1), n);
        }
        assert false;
      }
    }
  }

  /** The turn's length repeats the last one: what is cut off, if anything is, straddles. */
  lemma Stops(sizes: seq<nat>, least: nat, ifreq: nat, k: nat, lastlen: nat)
    requires (forall i :: 0 <= i < |sizes| ==> 0 < sizes[i]) && Growing(sizes, least, ifreq, k, lastlen)
    requires least <= BufLen(ifreq, k) && Got(sizes, BufLen(ifreq, k)) == lastlen
    ensures lastlen == Total(sizes) <==> !Straddled(sizes, least, ifreq)
  {
    var len := BufLen(ifreq, k);
    var n := Fitting(sizes, len, 0);
    assert sizes[..|sizes|] == sizes;
    if lastlen == Total(sizes) {
      NothingBehind(sizes, least, ifreq, k);
    } else {
      if lastlen == 0 {
        NothingGot(sizes, n);
      } else {
        SameFitting(sizes, BufLen(ifreq, k - 1), len);
      }
      assert Straddles(sizes, least, ifreq, n, k);
    }
  }

  lemma NothingBehind(sizes: seq<nat>, least: nat, ifreq: nat, k: nat)
    requires Total(sizes) <= BufLen(ifreq, k)
    requires forall n, j: nat :: 0 <= n < |sizes| && j < k ==> !Straddles(sizes, least, ifreq, n, j)
    ensures !Straddled(sizes, least, ifreq)
  {
    forall n, j: nat | 0 <= n < |sizes| && k <= j
      ensures !Straddles(sizes, least, ifreq, n, j)
    {
      assert sizes[..|sizes|] == sizes;
      TotalGrows(sizes, n + 1, |sizes|);
      BufLenGrows(ifreq, k, j);
    }
  }

  lemma SameFitting(sizes: seq<nat>, before: nat, len: nat)
    requires before <= len && Got(sizes, before) == Got(sizes, len)
    ensures Total(sizes[..Fitting(sizes, len, 0)]) <= before
  {
  }

  /** A buffer that all fits into at the turn before ends the loop. */
  lemma Enough(sizes: seq<nat>, least: nat, ifreq: nat, k: nat, lastlen: nat)
    requires Growing(sizes, least, ifreq, k, lastlen) && k > 0 && Total(sizes) + least <= BufLen(ifreq, k - 1)
    ensures least <= BufLen(ifreq, k) && Got(sizes, BufLen(ifreq, k)) == lastlen
  {
    WholeFits(sizes, BufLen(ifreq, k - 1));
    WholeFits(sizes, BufLen(ifreq, k));
  }

  /** One turn: either it has to go on, and nothing straddles at it, or the length repeats the last one. */
  lemma Turn(sizes: seq<nat>, least: nat, ifreq: nat, k: nat, lastlen: nat)
    requires (forall i :: 0 <= i < |sizes| ==> 0 < sizes[i]) && Growing(sizes, least, ifreq, k, lastlen)
    ensures var len := BufLen(ifreq, k);
            if len < least then Growing(sizes, least, ifreq, k + 1, lastlen) && len < Total(sizes) + least + 200 * ifreq
            else if Got(sizes, len) == lastlen then lastlen == Total(sizes) <==> !Straddled(sizes, least, ifreq)
            else Growing(sizes, least, ifreq, k + 1, Got(sizes, len)) && len <= Total(sizes) + least + 200 * ifreq
  {
    if k > 0 && Total(sizes) + least <= BufLen(ifreq, k - 1) {
      Enough(sizes, least, ifreq, k, lastlen);
    }
    if least <= BufLen(ifreq, k) {
      if Got(sizes, BufLen(ifreq, k)) == lastlen {
        Stops(sizes, least, ifreq, k, lastlen);
      } else {
        GoesOn(sizes, least, ifreq, k, lastlen);
      }
    }
  }

  /** Records of up to ten ifreq structures never straddle. */
  lemma ShortRecordsDoNotStraddle(sizes: seq<nat>, least: nat, ifreq: nat)
    requires forall i :: 0 <= i < |sizes| ==> sizes[i] <= 10 * ifreq
    ensures !Straddled(sizes, least, ifreq)
  {
    forall n, k: nat | 0 <= n < |sizes|
      ensures !Straddles(sizes, least, ifreq, n, k)
    {
      TotalNext(sizes, n);
      BufLenGrows(ifreq, 0, k);
    }
  }

  lemma WholeFits(sizes: seq<nat>, len: nat)
    ensures len >= Total(sizes) ==> Total(sizes[..Fitting(sizes, len, 0)]) == Total(sizes)
  {
    var n := Fitting(sizes, len, 0);
    assert sizes[..|sizes|] == sizes;
    if n < |sizes| {
      TotalGrows(sizes, n + 1, |sizes|);
    }
  }

  lemma TotalNext(sizes: seq<nat>, n: nat)
    requires n <= |sizes|
    ensures n < |sizes| ==> Total(sizes[..n + 1]) == Total(sizes[..n]) + sizes[n]
  {
    if n < |sizes| {
      assert sizes[..n + 1][..n] == sizes[..n];
    }
  }

  /** Ten ifreq more would have let in another record. */
  lemma NothingCutOff(sizes: seq<nat>, before: nat, len: nat, ifreq: nat)
    requires forall i :: 0 <= i < |sizes| ==> 0 < sizes[i] <= 10 * ifreq
    requires before + 10 * ifreq <= len
    requires Total(sizes[..Fitting(sizes, before, 0)]) == Total(sizes[..Fitting(sizes, len, 0)])
    ensures Total(sizes[..Fitting(sizes, len, 0)]) == Total(sizes)
  {
    var n := Fitting(sizes, len, 0);
    assert sizes[..|sizes|] == sizes;
    TotalNext(sizes, n);
  }

  // ----------------------------------------------------------------------- the list

  const IFI_HADDR: nat := 8

  datatype Family = Inet | Inet6 | Link | OtherFamily(number: nat)

  /** A struct ifreq, with what the other ioctls answer for its interface; `index` and `haddr` are those of
      a link-level record. */
  datatype Record = Record(name: string, family: Family, addr: seq<Byte>, index: int, haddr: seq<Byte>,
                           flags: nat, mtu: int, broadaddr: seq<Byte>, dstaddr: seq<Byte>)

  /** IFF_UP, IFF_BROADCAST and IFF_POINTOPOINT. */
  predicate Up(flags: nat) {
    flags % 2 == 1
  }

  predicate Broadcast(flags: nat) {
    flags / 2 % 2 == 1
  }

  predicate PointToPoint(flags: nat) {
    flags / 0x10 % 2 == 1
  }

  /** The data of an ifi_info. */
  datatype Info = Info(name: string, index: int, mtu: int, haddr: seq<Byte>, flags: nat, isAlias: bool,
                       addr: Option<seq<Byte>>, brdaddr: Option<seq<Byte>>, dstaddr: Option<seq<Byte>>)

  /** The name up to the colon that an alias has in it. */
  function Base(name: string): string {
    if name == "" || name[0] == ':' then "" else [name[0]] + Base(name[1..])
  }

  lemma {:induction false} BaseMeaning(name: string)
    ensures Base(name) <= name && ':' !in Base(name)
    ensures |Base(name)| < |name| ==> name[|Base(name)|] == ':'
  {
    if name == "" || name[0] == ':' {
    } else {
      BaseMeaning(name[1..]);
    }
  }

  /** The interface of the last record of the family before `i`. */
  function Previous(records: seq<Record>, family: Family, i: nat): string
    requires i <= |records|
  {
    if i == 0 then ""
    else if records[i - 1].family == family then Base(records[i - 1].name)
    else Previous(records, family, i - 1)
  }

  /** A further address of the interface that the last record of the family was for. */
  predicate IsAlias(records: seq<Record>, family: Family, i: nat)
    requires i < |records|
  {
    Base(records[i].name) == Previous(records, family, i)
  }

  /** Record `j` is the last one of the family before `i`. */
  predicate LastOfFamily(records: seq<Record>, family: Family, j: nat, i: nat)
    requires i <= |records|
  {
    j < i && records[j].family == family && forall k :: j < k < i ==> records[k].family != family
  }

  /** Before the first record of the family the remembered name is empty. */
  lemma {:induction false} PreviousMeaning(records: seq<Record>, family: Family, i: nat) returns (last: Option<nat>)
    requires i <= |records|
    ensures last.Some? ==>
              LastOfFamily(records, family, last.value, i)
              && Previous(records, family, i) == Base(records[last.value].name)
    ensures last.None? ==>
              Previous(records, family, i) == "" && forall j :: 0 <= j < i ==> records[j].family != family
  {
    if i == 0 {
      last := None;
    } else if records[i - 1].family == family {
      last := Some(i - 1);
    } else {
      last := PreviousMeaning(records, family, i - 1);
    }
  }

  /** The last record of the family before `i` is for the same interface. */
  ghost predicate Repeats(records: seq<Record>, family: Family, i: nat)
    requires i < |records|
  {
    || (exists j: nat :: LastOfFamily(records, family, j, i) && Base(records[j].name) == Base(records[i].name))
    || (Base(records[i].name) == "" && forall j :: 0 <= j < i ==> records[j].family != family)
  }

  lemma OnlyOneLast(records: seq<Record>, family: Family, j: nat, k: nat, i: nat)
    requires i <= |records| && LastOfFamily(records, family, j, i) && LastOfFamily(records, family, k, i)
    ensures j == k
  {
  }

  /** A record is entered if and only if it is of the family, its interface is up and, unless doaliases is set,
      it does not repeat the interface of the record of the family before it. */
  lemma WantedIff(records: seq<Record>, family: Family, doaliases: bool, i: nat)
    requires i < |records|
    ensures Wanted(records, family, doaliases, i) <==>
              records[i].family == family && records[i].flags % 2 == 1 && (doaliases || !Repeats(records, family, i))
    ensures IsAlias(records, family, i) <==> Repeats(records, family, i)
  {
    var last := PreviousMeaning(records, family, i);
    if last.Some? {
      forall j: nat | LastOfFamily(records, family, j, i)
        ensures j == last.value
      {
        OnlyOneLast(records, family, j, last.value, i);
      }
    }
  }

  predicate Wanted(records: seq<Record>, family: Family, doaliases: bool, i: nat)
    requires i < |records|
  {
    records[i].family == family && Up(records[i].flags) && (doaliases || !IsAlias(records, family, i))
  }

  /** sdlname, idx, and hlen bytes at haddr. */
  datatype Hardware = Hardware(name: Option<string>, index: int, haddr: seq<Byte>)

  /** The name that sdlname points to. It loses its alias part if link-level records are what is wanted. */
  function LinkName(r: Record, family: Family): string {
    if family.Link? then Base(r.name) else r.name
  }

  /** Lines 66 to 73. */
  function Seen(r: Record, family: Family, hw: Hardware): Hardware {
    if r.family.Link? then Hardware(Some(LinkName(r, family)), r.index, r.haddr) else hw
  }

  /** Lines 113 and 114. */
  function Matched(hw: Hardware, name: string): Hardware {
    if hw.name == Some(name) then hw else hw.(index := 0, haddr := [])
  }

  /** What is remembered of link-level records before record `i`. */
  function HardwareAt(records: seq<Record>, family: Family, doaliases: bool, i: nat): Hardware
    requires i <= |records|
  {
    if i == 0 then Hardware(None, 0, [])
    else
      var r, hw := records[i - 1], Seen(records[i - 1], family, HardwareAt(records, family, doaliases, i - 1));
      if Wanted(records, family, doaliases, i - 1) then Matched(hw, Base(r.name)) else hw
  }

  function InfoFrom(r: Record, isAlias: bool, hw: Hardware): (info: Info)
    ensures info.name == Base(r.name) && info.index == hw.index && info.mtu == r.mtu && info.flags == r.flags
    ensures info.isAlias == isAlias
    ensures info.haddr <= hw.haddr && (|info.haddr| == 8 || (info.haddr == hw.haddr && |hw.haddr| < 8))
    ensures info.addr.Some? <==> r.family.Inet? || r.family.Inet6?
    ensures info.addr.Some? ==> info.addr.value == r.addr
    ensures info.brdaddr.Some? <==> r.family.Inet? && r.flags / 2 % 2 == 1
    ensures info.brdaddr.Some? ==> info.brdaddr.value == r.broadaddr
    ensures info.dstaddr.Some? <==> (r.family.Inet? || r.family.Inet6?) && r.flags / 0x10 % 2 == 1
    ensures info.dstaddr.Some? ==> info.dstaddr.value == r.dstaddr
  {
    Info(Base(r.name), hw.index, r.mtu, hw.haddr[..Min(|hw.haddr|, IFI_HADDR)], r.flags, isAlias,
         if r.family.Inet? || r.family.Inet6? then Some(r.addr) else None,
         if r.family.Inet? && Broadcast(r.flags) then Some(r.broadaddr) else None,
         if (r.family.Inet? || r.family.Inet6?) && PointToPoint(r.flags) then Some(r.dstaddr) else None)
  }

  function InfoOf(records: seq<Record>, family: Family, doaliases: bool, i: nat): Info
    requires i < |records|
  {
    var r := records[i];
    InfoFrom(r, IsAlias(records, family, i),
        Matched(Seen(r, family, HardwareAt(records, family, doaliases, i)), Base(r.name)))
  }

  /** The last link-level record before `i`. */
  function LastLink(records: seq<Record>, i: nat): (j: Option<nat>)
    requires i <= |records|
    ensures j.Some? ==> j.value < i && records[j.value].family.Link?
    ensures forall k :: (if j.Some? then j.value + 1 else 0) <= k < i ==> !records[k].family.Link?
  {
    if i == 0 then None else if records[i - 1].family.Link? then Some(i - 1) else LastLink(records, i - 1)
  }

  /** From the link-level record `j` on, all entries up to `i` are for its interface. */
  predicate AllOf(records: seq<Record>, family: Family, doaliases: bool, j: nat, i: nat)
    requires i <= |records|
  {
    forall k :: j <= k < i && Wanted(records, family, doaliases, k)
        ==> Base(records[k].name) == LinkName(records[j], family)
  }

  /** The last link-level record, unless an entry for another interface has come behind it. */
  function FromLast(records: seq<Record>, family: Family, doaliases: bool, i: nat): Hardware
    requires i <= |records|
  {
    match LastLink(records, i)
    case None => Hardware(None, 0, [])
    case Some(j) =>
      var r, name := records[j], Some(LinkName(records[j], family));
      if AllOf(records, family, doaliases, j, i) then Hardware(name, r.index, r.haddr) else Hardware(name, 0, [])
  }

  /** What a record adds to the list. */
  function Entry(records: seq<Record>, family: Family, doaliases: bool, i: nat): seq<Info>
    requires i < |records|
  {
    if Wanted(records, family, doaliases, i) then [InfoOf(records, family, doaliases, i)] else []
  }

  /** The records before `i` that are wanted, in order. */
  function WantedInfos(records: seq<Record>, family: Family, doaliases: bool, i: nat): seq<Info>
    requires i <= |records|
  {
    if i == 0 then []
    else WantedInfos(records, family, doaliases, i - 1) + Entry(records, family, doaliases, i - 1)
  }

  /** `picked` are the wanted numbers below `i`, in order, and `infos` what is entered for them. */
  ghost predicate Picks(want: nat -> bool, enter: nat -> Info, i: nat, picked: seq<nat>, infos: seq<Info>) {
    && |picked| == |infos|
    && (forall k :: 0 <= k < |picked| ==> picked[k] < i && want(picked[k]) && infos[k] == enter(picked[k]))
    && (forall k, l :: 0 <= k < l < |picked| ==> picked[k] < picked[l])
    && (forall j :: 0 <= j < i && want(j) ==> j in picked)
  }

  /** The list is the records of the family whose interface is up, in their order and none twice, less,
      unless doaliases is set, those that repeat the interface before them. */
  lemma {:induction false} WantedMeaning(records: seq<Record>, family: Family, doaliases: bool, i: nat)
      returns (picked: seq<nat>)
    requires i <= |records|
    ensures Picks(WantFrom(records, family, doaliases), EnterFrom(records, family, doaliases), i, picked,
                  WantedInfos(records, family, doaliases, i))
  {
    if i == 0 {
      picked := [];
    } else {
      var before := WantedMeaning(records, family, doaliases, i - 1);
      NextWanted(records, family, doaliases, i - 1);
      picked := PicksMore(WantFrom(records, family, doaliases), EnterFrom(records, family, doaliases), i - 1, before,
                          WantedInfos(records, family, doaliases, i - 1));
    }
  }

  lemma NextWanted(records: seq<Record>, family: Family, doaliases: bool, i: nat)
    requires i < |records|
    ensures WantedInfos(records, family, doaliases, i + 1)
         == WantedInfos(records, family, doaliases, i)
            + if WantFrom(records, family, doaliases)(i) then [EnterFrom(records, family, doaliases)(i)] else []
  {
  }

  function WantFrom(records: seq<Record>, family: Family, doaliases: bool): nat -> bool {
    (j: nat) => j < |records| && Wanted(records, family, doaliases, j)
  }

  function EnterFrom(records: seq<Record>, family: Family, doaliases: bool): nat -> Info {
    (j: nat) =>
      if j < |records| then InfoOf(records, family, doaliases, j)
      else Info("", 0, 0, [], 0, false, None, None, None)
  }

  lemma PicksMore(want: nat -> bool, enter: nat -> Info, i: nat, picked: seq<nat>, infos: seq<Info>)
      returns (more: seq<nat>)
    requires Picks(want, enter, i, picked, infos)
    ensures Picks(want, enter, i + 1, more, infos + if want(i) then [enter(i)] else [])
  {
    more := picked;
    if want(i) {
      more := picked + [i];
      assert more[|picked|] == i;
    } else {
      assert infos + [] == infos;
    }
  }

  lemma {:induction false} HardwareIs(records: seq<Record>, family: Family, doaliases: bool, i: nat)
    requires i <= |records|
    ensures HardwareAt(records, family, doaliases, i) == FromLast(records, family, doaliases, i)
  {
    if i == 0 {
    } else {
      HardwareIs(records, family, doaliases, i - 1);
      var last := LastLink(records, i);
      if last.Some? {
        assert AllOf(records, family, doaliases, last.value, i)
          <==> (last.value < i - 1 ==> AllOf(records, family, doaliases, last.value, i - 1))
               && (Wanted(records, family, doaliases, i - 1)
                  ==> Base(records[i - 1].name) == LinkName(records[last.value], family));
      }
    }
  }

  /** An entry has the index and hardware address of the last link-level record before it if and only if
      that is for its interface, and so is every entry in between; otherwise it has none. */
  lemma HardwareOfEntry(records: seq<Record>, family: Family, doaliases: bool, i: nat)
    requires i < |records| && Wanted(records, family, doaliases, i)
    ensures var info, last := InfoOf(records, family, doaliases, i), LastLink(records, i + 1);
            if last.Some? && AllOf(records, family, doaliases, last.value, i + 1)
            then info.index == records[last.value].index
                 && info.haddr == records[last.value].haddr[..Min(|records[last.value].haddr|, IFI_HADDR)]
            else info.index == 0 && info.haddr == []
  {
    HardwareIs(records, family, doaliases, i + 1);
  }

  /** Without doaliases no entry is marked an alias. */
  lemma NoAliasesUnlessAsked(records: seq<Record>, family: Family, info: Info)
    requires info in WantedInfos(records, family, false, |records|)
    ensures !info.isAlias
  {
    var picked := WantedMeaning(records, family, false, |records|);
  }

  class IfiInfo {
    const info: Info
    var next: IfiInfo?

    constructor (info: Info)
      ensures this.info == info && next == null
    {
      this.info := info;
      next := null;
    }
  }

  /** A list through `next` that visits `nodes`, each once, and ends. */
  ghost predicate IsList(head: IfiInfo?, nodes: seq<IfiInfo>)
    reads set n | n in nodes
  {
    && head == (if nodes == [] then null else nodes[0])
    && (forall i :: 0 <= i < |nodes| ==> nodes[i].next == if i + 1 < |nodes| then nodes[i + 1] else null)
    && forall i, j :: 0 <= i < j < |nodes| ==> nodes[i] != nodes[j]
  }

  ghost predicate Holds(nodes: seq<IfiInfo>, infos: seq<Info>) {
    |nodes| == |infos| && forall i :: 0 <= i < |nodes| ==> nodes[i].info == infos[i]
  }

  /** The list so far, and where its end is. */
  ghost predicate Built(head: IfiInfo?, tail: IfiInfo?, nodes: seq<IfiInfo>, infos: seq<Info>)
    reads set n | n in nodes
  {
    IsList(head, nodes) && Holds(nodes, infos) && tail == if nodes == [] then null else nodes[|nodes| - 1]
  }

  function AsSeq(info: Option<Info>): seq<Info> {
    if info.Some? then [info.value] else []
  }

  /** Lines 64 to 94 and the copying from 100 on: what to enter for a record, if anything, and what to
      remember: the interface name, and the link-level record. */
  method Examine(records: seq<Record>, i: nat, family: Family, doaliases: bool, lastname: string, hw: Hardware)
      returns (info: Option<Info>, newname: string, newhw: Hardware)
    requires i < |records| && lastname == Previous(records, family, i)
             && hw == HardwareAt(records, family, doaliases, i)
    ensures newname == Previous(records, family, i + 1) && newhw == HardwareAt(records, family, doaliases, i + 1)
    ensures AsSeq(info) == Entry(records, family, doaliases, i)
  {
    var r := records[i];
    newhw := hw;
    if r.family.Link? {
      newhw := Hardware(Some(LinkName(r, family)), r.index, r.haddr);
    }
    if r.family != family {
      return None, lastname, newhw;
    }
    var isAlias := false;
    var name := Base(r.name);
    if lastname == name {
      if !doaliases {
        return None, lastname, newhw;
      }
      isAlias := true;
    }
    if !Up(r.flags) {
      return None, name, newhw;
    }
    if newhw.name != Some(name) {
      newhw := newhw.(index := 0, haddr := []);
    }
    info := Some(Copied(r, name, isAlias, newhw));
    newname := name;
  }

  /** Lines 100 to 165. */
  function Copied(r: Record, name: string, isAlias: bool, hw: Hardware): (info: Info)
    requires name == Base(r.name)
    ensures info == InfoFrom(r, isAlias, hw)
  {
    var haddr := if |hw.haddr| > IFI_HADDR then hw.haddr[..IFI_HADDR] else hw.haddr;
    match r.family
    case Inet =>
      Info(name, hw.index, r.mtu, haddr, r.flags, isAlias, Some(r.addr),
           if Broadcast(r.flags) then Some(r.broadaddr) else None,
           if PointToPoint(r.flags) then Some(r.dstaddr) else None)
    case Inet6 =>
      Info(name, hw.index, r.mtu, haddr, r.flags, isAlias, Some(r.addr),
           None, if PointToPoint(r.flags) then Some(r.dstaddr) else None)
    case _ => Info(name, hw.index, r.mtu, haddr, r.flags, isAlias, None, None, None)
  }

  /** Lines 37 to 101: one pass over the records. `tail` is where ifipnext points: into the last node,
      or at the head while there is none. */
  method BuildList(records: seq<Record>, family: Family, doaliases: bool)
      returns (head: IfiInfo?, ghost nodes: seq<IfiInfo>)
    ensures IsList(head, nodes) && (forall n :: n in nodes ==> fresh(n))
    ensures Holds(nodes, WantedInfos(records, family, doaliases, |records|))
  {
    var lastname, hw := "", Hardware(None, 0, []);
    var tail: IfiInfo? := null;
    head, nodes := null, [];
    var i := 0;
    while i < |records|
      invariant 0 <= i <= |records|
      invariant lastname == Previous(records, family, i) && hw == HardwareAt(records, family, doaliases, i)
      invariant Built(head, tail, nodes, WantedInfos(records, family, doaliases, i))
      invariant (forall n :: n in nodes ==> fresh(n)) && (tail != null ==> fresh(tail))
    {
      var info;
      info, lastname, hw := Examine(records, i, family, doaliases, lastname, hw);
      head, tail, nodes := Enter(head, tail, nodes, info, WantedInfos(records, family, doaliases, i));
      i := i + 1;
    }
  }

  /** The records that are passed over leave the list alone. */
  method Enter(head: IfiInfo?, tail: IfiInfo?, ghost nodes: seq<IfiInfo>, info: Option<Info>, ghost infos: seq<Info>)
      returns (first: IfiInfo?, last: IfiInfo?, ghost now: seq<IfiInfo>)
    requires Built(head, tail, nodes, infos)
    modifies tail
    ensures Built(first, last, now, infos + AsSeq(info))
    ensures forall n :: n in now ==> n in nodes || fresh(n)
    ensures last == tail || fresh(last)
  {
    if info.Some? {
      first, last, now := Append(head, tail, nodes, info.value, infos);
    } else {
      first, last, now := head, tail, nodes;
      assert infos + [] == infos;
    }
  }

  /** Lines 96 to 98: a new node where ifipnext points, which then points into it. */
  method Append(head: IfiInfo?, tail: IfiInfo?, ghost nodes: seq<IfiInfo>, info: Info, ghost infos: seq<Info>)
      returns (first: IfiInfo?, last: IfiInfo?, ghost now: seq<IfiInfo>)
    requires Built(head, tail, nodes, infos)
    modifies tail
    ensures last != null && fresh(last) && now == nodes + [last]
    ensures Built(first, last, now, infos + [info])
  {
    var ifi := new IfiInfo(info);
    first := head;
    if tail == null {
      first := ifi;
    } else {
      tail.next := ifi;
    }
    last := ifi;
    now := nodes + [ifi];
  }
}
