/**
  * Wi-Fi sighting bookkeeping: every captured probe (signal strength, sender
  * MAC address, requested SSID) updates one record per SSID and one per MAC,
  * creating a record the first time its key is seen, and links the two
  * records to each other.
  */
module WifiTracking {
  import opened Wrappers
  import opened ViewGeometry

  newtype uint64 = x: int | 0 <= x < 0x1_0000_0000_0000_0000

  /** One decoded capture line. */
  datatype Sighting = Sighting(rssi: int, mac: uint64, ssid: string)

  /** What is known about one network name. */
  class WTSSid {
    var ssid: string
    var seenLast: MLMicroSeconds
    var seenCount: int
    var macs: map<uint64, WTMac>

    constructor ()
      ensures seenLast == Never && seenCount == 0
      ensures ssid == "" && macs == map[]
    {
      ssid := "";
      seenLast := Never;
      seenCount := 0;
      macs := map[];
    }

    /** One more sighting, at now. */
    method Saw(now: MLMicroSeconds)
      modifies this`seenLast, this`seenCount
      ensures seenLast == now && seenCount == old(seenCount) + 1
    {
      seenLast := now;
      seenCount := seenCount + 1;
    }
  }

  /** What is known about one device. */
  class WTMac {
    var mac: uint64
    var seenLast: MLMicroSeconds
    var seenCount: int
    var rssi: int
    var ssids: map<string, WTSSid>

    constructor ()
      ensures seenLast == Never && seenCount == 0
      ensures ssids == map[]
    {
      mac := 0;
      seenLast := Never;
      seenCount := 0;
      rssi := 0;
      ssids := map[];
    }

    /** One more sighting, at now, with signal strength rssi. */
    method Saw(now: MLMicroSeconds, rssi': int)
      modifies this`seenLast, this`seenCount, this`rssi
      ensures seenLast == now && seenCount == old(seenCount) + 1 && rssi == rssi'
    {
      seenLast := now;
      seenCount := seenCount + 1;
      rssi := rssi';
    }
  }

  /**
    * The link structure of a tracker as plain values: the records filed by
    * key, and for each key the links its record holds.
    */
  predicate LinksConsistent(ss: map<string, WTSSid>, ms: map<uint64, WTMac>,
                            macLinks: map<uint64, map<string, WTSSid>>, ssidLinks: map<string, map<uint64, WTMac>>)
  {
    && macLinks.Keys == ms.Keys
    && ssidLinks.Keys == ss.Keys
    && (forall k, t :: k in macLinks && t in macLinks[k] ==> t in ss && macLinks[k][t] == ss[t])
    && (forall t, k :: t in ssidLinks && k in ssidLinks[t] ==> k in ms && ssidLinks[t][k] == ms[k])
    && (forall k, t :: k in macLinks && t in ssidLinks ==> (t in macLinks[k] <==> k in ssidLinks[t]))
  }

  class WifiTrack {
    var ssids: map<string, WTSSid>
    var macs: map<uint64, WTMac>

    /** Every record is filed under its own key. */
    predicate Valid()
      reads this`ssids, this`macs, ssids.Values`ssid, macs.Values`mac
    {
      && (forall t :: t in ssids ==> ssids[t].ssid == t)
      && (forall k :: k in macs ==> macs[k].mac == k)
    }

    constructor ()
      ensures ssids == map[] && macs == map[]
      ensures Valid()
    {
      ssids := map[];
      macs := map[];
    }

    /**
      * The effect of recording sg at time now: both keys are present, an
      * existing record is reused and a new one is created only for an unseen
      * key, both records count one more sighting seen at now, the device
      * record takes the signal strength, the two records are linked, and no
      * other record changes.
      */
    twostate predicate Recorded(sg: Sighting, now: MLMicroSeconds)
      reads this, ssids.Values, macs.Values
    {
      && ssids.Keys == old(ssids.Keys) + {sg.ssid}
      && macs.Keys == old(macs.Keys) + {sg.mac}
      && (forall t :: t in old(ssids) ==> ssids[t] == old(ssids[t]))
      && (forall k :: k in old(macs) ==> macs[k] == old(macs[k]))
      && (sg.ssid !in old(ssids) ==> fresh(ssids[sg.ssid]))
      && (sg.mac !in old(macs) ==> fresh(macs[sg.mac]))
      && (forall t :: t in old(ssids) && t != sg.ssid ==> unchanged(old(ssids[t])))
      && (forall k :: k in old(macs) && k != sg.mac ==> unchanged(old(macs[k])))
      && var s := ssids[sg.ssid];
      && var m := macs[sg.mac];
      && s.ssid == sg.ssid
      && s.seenLast == now
      && s.seenCount == (if sg.ssid in old(ssids) then old(s.seenCount) else 0) + 1
      && s.macs == (if sg.ssid in old(ssids) then old(s.macs) else map[])[sg.mac := m]
      && m.mac == sg.mac
      && m.seenLast == now
      && m.seenCount == (if sg.mac in old(macs) then old(m.seenCount) else 0) + 1
      && m.rssi == sg.rssi
      && m.ssids == (if sg.mac in old(macs) then old(m.ssids) else map[])[sg.ssid := s]
    }

    /** The recording part of gotDumpLine, for one decoded sighting. */
    method RecordSighting(sg: Sighting, now: MLMicroSeconds)
      requires Valid()
      modifies this, ssids.Values, macs.Values
      ensures Recorded(sg, now)
      ensures Valid()
    {
      var s := FindOrCreateSSid(sg.ssid);
      var m := FindOrCreateMac(sg.mac);
      Touch(s, m, sg, now);
    }

    /** Both records count the sighting at now, the device takes its signal strength, and they are linked. */
    static method Touch(s: WTSSid, m: WTMac, sg: Sighting, now: MLMicroSeconds)
      modifies s, m
      ensures s.ssid == old(s.ssid) && m.mac == old(m.mac)
      ensures s.seenLast == now && s.seenCount == old(s.seenCount) + 1
      ensures m.seenLast == now && m.seenCount == old(m.seenCount) + 1 && m.rssi == sg.rssi
      ensures m.ssids == old(m.ssids)[sg.ssid := s] && s.macs == old(s.macs)[sg.mac := m]
    {
      s.Saw(now);
      m.Saw(now, sg.rssi);
      m.ssids := m.ssids[sg.ssid := s];
      s.macs := s.macs[sg.mac := m];
    }

    /**
      * gotDumpLine: a read error, a missing line or a line the capture
      * pattern does not match records nothing; a matching line is recorded
      * as its decoded sighting at time now.
      */
    method GotDumpLine(readError: bool, line: Option<string>, decode: string -> Option<Sighting>, now: MLMicroSeconds)
      requires Valid()
      modifies this, ssids.Values, macs.Values
      ensures Valid()
      ensures !readError && line.Some? && decode(line.value).Some? ==> Recorded(decode(line.value).value, now)
      ensures readError || line.None? || decode(line.value).None? ==>
                unchanged(this) && unchanged(ssids.Values) && unchanged(macs.Values)
    {
      if readError {
        return;
      }
      if line.Some? {
        var sg := decode(line.value);
        if sg.Some? {
          RecordSighting(sg.value, now);
        }
      }
    }

    /** The record filed under ssid, created and filed when there is none. */
    method FindOrCreateSSid(ssid: string) returns (s: WTSSid)
      requires Valid()
      modifies this`ssids
      ensures Valid() && ssid in ssids && ssids[ssid] == s
      ensures ssid in old(ssids) ==> ssids == old(ssids) && s == old(ssids[ssid])
      ensures ssid !in old(ssids) ==> ssids == old(ssids)[ssid := s] && fresh(s)
      ensures ssid !in old(ssids) ==> s.seenLast == Never && s.seenCount == 0 && s.macs == map[]
    {
      if ssid in ssids {
        s := ssids[ssid];
      } else {
        s := new WTSSid();
        s.ssid := ssid;
        ssids := ssids[ssid := s];
      }
    }

    /** The record filed under mac, created and filed when there is none. */
    method FindOrCreateMac(mac: uint64) returns (m: WTMac)
      requires Valid()
      modifies this`macs
      ensures Valid() && mac in macs && macs[mac] == m
      ensures mac in old(macs) ==> macs == old(macs) && m == old(macs[mac])
      ensures mac !in old(macs) ==> macs == old(macs)[mac := m] && fresh(m)
      ensures mac !in old(macs) ==> m.seenLast == Never && m.seenCount == 0 && m.ssids == map[]
    {
      if mac in macs {
        m := macs[mac];
      } else {
        m := new WTMac();
        m.mac := mac;
        macs := macs[mac := m];
      }
    }
  }

  // ----- the link structure as values -----

  /** A new network record without links keeps the structure consistent. */
  lemma AddSSidConsistent(ss: map<string, WTSSid>, ms: map<uint64, WTMac>,
                          ml: map<uint64, map<string, WTSSid>>, sl: map<string, map<uint64, WTMac>>,
                          t: string, s: WTSSid)
    requires LinksConsistent(ss, ms, ml, sl) && t !in ss
    ensures LinksConsistent(ss[t := s], ms, ml, sl[t := map[]])
  {
    forall k, u | k in ml && u in ml[k]
      ensures u in ss[t := s] && ml[k][u] == ss[t := s][u]
    {
      assert u in ss;
    }
  }

  /** A new device record without links keeps the structure consistent. */
  lemma AddMacConsistent(ss: map<string, WTSSid>, ms: map<uint64, WTMac>,
                         ml: map<uint64, map<string, WTSSid>>, sl: map<string, map<uint64, WTMac>>,
                         k: uint64, m: WTMac)
    requires LinksConsistent(ss, ms, ml, sl) && k !in ms
    ensures LinksConsistent(ss, ms[k := m], ml[k := map[]], sl)
  {
    forall u, j | u in sl && j in sl[u]
      ensures j in ms[k := m] && sl[u][j] == ms[k := m][j]
    {
      assert j in ms;
    }
  }

  /** Linking a known device and a known network in both directions keeps the structure consistent. */
  lemma LinkConsistent(ss: map<string, WTSSid>, ms: map<uint64, WTMac>,
                       ml: map<uint64, map<string, WTSSid>>, sl: map<string, map<uint64, WTMac>>,
                       t: string, k: uint64)
    requires LinksConsistent(ss, ms, ml, sl) && t in ss && k in ms
    ensures LinksConsistent(ss, ms, ml[k := ml[k][t := ss[t]]], sl[t := sl[t][k := ms[k]]])
  {
  }

  /**
    * One recorded sighting, on the link structure: find or create both
    * records, then link them both ways. A consistent structure stays
    * consistent, so every link a record holds is mirrored by the other.
    */
  lemma RecordKeepsLinksConsistent(ss: map<string, WTSSid>, ms: map<uint64, WTMac>,
                                   ml: map<uint64, map<string, WTSSid>>, sl: map<string, map<uint64, WTMac>>,
                                   sg: Sighting, s: WTSSid, m: WTMac)
    requires LinksConsistent(ss, ms, ml, sl)
    requires sg.ssid in ss ==> s == ss[sg.ssid]
    requires sg.mac in ms ==> m == ms[sg.mac]
    ensures var ml0 := if sg.mac in ms then ml else ml[sg.mac := map[]];
            var sl0 := if sg.ssid in ss then sl else sl[sg.ssid := map[]];
            LinksConsistent(ss[sg.ssid := s], ms[sg.mac := m],
                            ml0[sg.mac := ml0[sg.mac][sg.ssid := s]], sl0[sg.ssid := sl0[sg.ssid][sg.mac := m]])
  {
    var ss1, sl1 := ss, sl;
    if sg.ssid !in ss {
      AddSSidConsistent(ss, ms, ml, sl, sg.ssid, s);
      ss1, sl1 := ss[sg.ssid := s], sl[sg.ssid := map[]];
    } else {
      assert ss[sg.ssid := s] == ss;
    }
    var ms1, ml1 := ms, ml;
    if sg.mac !in ms {
      AddMacConsistent(ss1, ms, ml, sl1, sg.mac, m);
      ms1, ml1 := ms[sg.mac := m], ml[sg.mac := map[]];
    } else {
      assert ms[sg.mac := m] == ms;
    }
    LinkConsistent(ss1, ms1, ml1, sl1, sg.ssid, sg.mac);
  }
}
