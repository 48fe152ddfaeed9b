/**
 * The dashboard's traffic chart data (frontend/src/LoadBalanceDashboard.jsx):
 * the pivot of the `/stats/traffic` rows into one record per minute
 * (`loadTraffic`), and the chart's series keys (`trafficServerKeys`).
 *
 * A plain JavaScript object is modelled as its string keys in insertion order
 * together with its properties; `Object.keys` / `Object.values` follow that
 * order.
 */
module Traffic {
  import opened Wrappers
  import opened InsertionOrder

  /** One row of `/stats/traffic`: the requests one server answered in one minute. */
  datatype TrafficRow = TrafficRow(minute: string, serverHostname: string, cnt: int)

  /** A property of a pivoted record: the minute label or a request count. */
  datatype Value = Str(s: string) | Num(n: int)

  /** A plain object: its keys in insertion order, and its properties. */
  datatype Record = Record(keys: seq<string>, fields: map<string, Value>)

  const MinuteKey: string := "minute"

  /** A record as the pivot builds it: distinct keys, exactly its properties, "minute" first. */
  ghost predicate WellFormedRecord(rec: Record)
  {
    && Distinct(rec.keys)
    && (forall k :: k in rec.keys <==> k in rec.fields)
    && |rec.keys| > 0 && rec.keys[0] == MinuteKey
  }

  /** `rec[k] = v` on a plain object: an existing key keeps its place, a new one goes last. */
  function Assign(rec: Record, k: string, v: Value): (r: Record)
    ensures r.fields == rec.fields[k := v]
    ensures r.keys == if k in rec.fields then rec.keys else rec.keys + [k]
    ensures WellFormedRecord(rec) ==> WellFormedRecord(r)
  {
    if k in rec.fields then Record(rec.keys, rec.fields[k := v])
    else Record(rec.keys + [k], rec.fields[k := v])
  }

  /** `{ minute: key }` */
  function NewRecord(minute: string): (r: Record)
    ensures WellFormedRecord(r) && |r.keys| == 1
    ensures r.fields[MinuteKey] == Str(minute)
  {
    Record([MinuteKey], map[MinuteKey := Str(minute)])
  }

  /** The `byMinute` object: its minute keys in insertion order, and the record of each. */
  datatype Table = Table(order: seq<string>, byMinute: map<string, Record>)

  /**
   * One iteration of the pivot loop on `row`: a minute seen for the first
   * time is appended to the key order with a fresh record; the row's count is
   * written into its minute's record, and every other record is unchanged.
   */
  function Absorb(t: Table, row: TrafficRow): (r: Table)
    ensures r.order == if row.minute in t.byMinute then t.order else t.order + [row.minute]
    ensures r.byMinute.Keys == t.byMinute.Keys + {row.minute}
    ensures row.serverHostname in r.byMinute[row.minute].fields
    ensures r.byMinute[row.minute].fields[row.serverHostname] == Num(row.cnt)
    ensures forall m :: m in t.byMinute && m != row.minute ==> r.byMinute[m] == t.byMinute[m]
    ensures r.byMinute[row.minute] ==
            Assign(if row.minute in t.byMinute then t.byMinute[row.minute] else NewRecord(row.minute),
                   row.serverHostname, Num(row.cnt))
  {
    var key := row.minute;
    var t' := if key in t.byMinute then t else Table(t.order + [key], t.byMinute[key := NewRecord(key)]);
    Table(t'.order, t'.byMinute[key := Assign(t'.byMinute[key], row.serverHostname, Num(row.cnt))])
  }

  /** `byMinute` after the loop has run over all of `rows`. */
  function Build(rows: seq<TrafficRow>): (t: Table)
    ensures forall m :: m in t.order <==> m in t.byMinute
  {
    if rows == [] then Table([], map[])
    else Absorb(Build(rows[..|rows| - 1]), rows[|rows| - 1])
  }

  /**
   * The chart data that `loadTraffic` stores for `rows`, that is
   * `Object.values(byMinute)` after the loop: record i is the
   * record of the i-th distinct minute, in order of first occurrence, and
   * holds exactly what `RecordMatches` says (see `BuildMatches`).
   */
  function Pivoted(rows: seq<TrafficRow>): (p: seq<Record>)
    ensures |p| == |Dedup(Minutes(rows))|
    ensures forall i :: 0 <= i < |p| ==> RecordMatches(p[i], rows, Dedup(Minutes(rows))[i])
  {
    BuildMatches(rows);
    var t := Build(rows);
    seq(|t.order|, i requires 0 <= i < |t.order| => t.byMinute[t.order[i]])
  }

  /** The pivot loop of `loadTraffic`, run over the fetched rows. */
  method Pivot(rows: seq<TrafficRow>) returns (data: seq<Record>)
    ensures data == Pivoted(rows)
  {
    var order: seq<string> := [];
    var byMinute: map<string, Record> := map[];
    for i := 0 to |rows|
      invariant Table(order, byMinute) == Build(rows[..i])
    {
      assert rows[..i + 1][..i] == rows[..i];
      var row := rows[i];
      var key := row.minute;
      if key !in byMinute {
        byMinute := byMinute[key := NewRecord(key)];
        order := order + [key];
      }
      byMinute := byMinute[key := Assign(byMinute[key], row.serverHostname, Num(row.cnt))];
    }
    assert rows[..|rows|] == rows;
    data := seq(|order|, i requires 0 <= i < |order| && order[i] in byMinute => byMinute[order[i]]);
  }

  // ---------------------------------------------------------------------------
  // The specification of the pivot, independent of the loop.

  /** The minute column of `rows`. */
  function Minutes(rows: seq<TrafficRow>): (ms: seq<string>)
    ensures |ms| == |rows| && forall k :: 0 <= k < |rows| ==> ms[k] == rows[k].minute
  {
    seq(|rows|, k requires 0 <= k < |rows| => rows[k].minute)
  }

  /** `row` writes the count of `host` in the record of `minute`. */
  predicate Writes(row: TrafficRow, minute: string, host: string)
  {
    row.minute == minute && row.serverHostname == host
  }

  /** The count of the last row of `rows` for the pair (`minute`, `host`), if there is one. */
  function LastCount(rows: seq<TrafficRow>, minute: string, host: string): (r: Option<int>)
    ensures r.None? <==> forall k :: 0 <= k < |rows| ==> !Writes(rows[k], minute, host)
    ensures r.Some? ==> exists k :: 0 <= k < |rows| && Writes(rows[k], minute, host) && rows[k].cnt == r.value &&
                                    forall k' :: k < k' < |rows| ==> !Writes(rows[k'], minute, host)
  {
    if rows == [] then None
    else if Writes(rows[|rows| - 1], minute, host) then Some(rows[|rows| - 1].cnt)
    else
      var r := LastCount(rows[..|rows| - 1], minute, host);
      assert forall k :: 0 <= k < |rows| - 1 ==> rows[..|rows| - 1][k] == rows[k];
      r
  }

  /** What property `h` of the record of `minute` holds once every row has been absorbed. */
  function Expected(rows: seq<TrafficRow>, minute: string, h: string): Value
  {
    match LastCount(rows, minute, h)
    case Some(c) => Num(c)
    case None => Str(minute)
  }

  /**
   * The record of `minute` after `rows`: "minute" plus exactly the hosts that
   * some row pairs with `minute`; each host holds its last row's count, and
   * "minute" holds the label unless a row names a host "minute".
   */
  ghost predicate RecordMatches(rec: Record, rows: seq<TrafficRow>, minute: string)
  {
    && WellFormedRecord(rec)
    && (forall h :: h in rec.fields <==> h == MinuteKey || LastCount(rows, minute, h).Some?)
    && (forall h :: h in rec.fields ==> rec.fields[h] == Expected(rows, minute, h))
  }

  /** `byMinute` after `rows`: minutes in first-occurrence order, each with its matching record. */
  ghost predicate TableMatches(t: Table, rows: seq<TrafficRow>)
  {
    && t.order == Dedup(Minutes(rows))
    && (forall m :: m in t.byMinute <==> m in t.order)
    && (forall m :: m in t.byMinute ==> RecordMatches(t.byMinute[m], rows, m))
  }

  /** A fresh record matches a minute that no earlier row mentions. */
  lemma NewRecordMatches(rows: seq<TrafficRow>, minute: string)
    requires minute !in Minutes(rows)
    ensures RecordMatches(NewRecord(minute), rows, minute)
  {
    forall h ensures LastCount(rows, minute, h).None? {
    }
  }

  /** Absorbing the last row keeps the record of its minute matching. */
  lemma AssignMatches(rec: Record, rows: seq<TrafficRow>)
    requires |rows| > 0
    requires RecordMatches(rec, rows[..|rows| - 1], rows[|rows| - 1].minute)
    ensures var row := rows[|rows| - 1];
      RecordMatches(Assign(rec, row.serverHostname, Num(row.cnt)), rows, row.minute)
  {
    var row := rows[|rows| - 1];
    var init := rows[..|rows| - 1];
    var r := Assign(rec, row.serverHostname, Num(row.cnt));
    forall h
      ensures h in r.fields <==> h == MinuteKey || LastCount(rows, row.minute, h).Some?
      ensures h in r.fields ==> r.fields[h] == Expected(rows, row.minute, h)
    {
      if h != row.serverHostname {
        assert LastCount(rows, row.minute, h) == LastCount(init, row.minute, h);
      }
    }
  }

  /** Absorbing the last row leaves the record of every other minute matching. */
  lemma OtherRecordMatches(rec: Record, rows: seq<TrafficRow>, minute: string)
    requires |rows| > 0 && rows[|rows| - 1].minute != minute
    requires RecordMatches(rec, rows[..|rows| - 1], minute)
    ensures RecordMatches(rec, rows, minute)
  {
    forall h ensures LastCount(rows, minute, h) == LastCount(rows[..|rows| - 1], minute, h) {
    }
  }

  /** Absorbing the last row keeps the minute order equal to the distinct minutes in first-occurrence order. */
  lemma AbsorbOrder(t: Table, rows: seq<TrafficRow>)
    requires |rows| > 0 && TableMatches(t, rows[..|rows| - 1])
    ensures Absorb(t, rows[|rows| - 1]).order == Dedup(Minutes(rows))
  {
    var init, row := rows[..|rows| - 1], rows[|rows| - 1];
    assert Minutes(rows) == Minutes(init) + [row.minute];
    assert Minutes(rows)[..|rows| - 1] == Minutes(init);
  }

  /** The pivot loop computes the table its specification describes. */
  lemma {:induction false} BuildMatches(rows: seq<TrafficRow>)
    ensures TableMatches(Build(rows), rows)
  {
    if rows != [] {
      var init, row := rows[..|rows| - 1], rows[|rows| - 1];
      BuildMatches(init);
      var t := Build(init);
      AbsorbOrder(t, rows);
      var before := if row.minute in t.byMinute then t.byMinute[row.minute] else NewRecord(row.minute);
      if row.minute !in t.byMinute {
        NewRecordMatches(init, row.minute);
      }
      AssignMatches(before, rows);
      var u := Build(rows);
      assert u == Absorb(t, row);
      forall m | m in u.byMinute ensures RecordMatches(u.byMinute[m], rows, m) {
        if m != row.minute {
          OtherRecordMatches(t.byMinute[m], rows, m);
        }
      }
    }
  }

  /** No row names a server "minute" (which would overwrite the record's minute label). */
  ghost predicate NoServerNamedMinute(rows: seq<TrafficRow>)
  {
    forall k :: 0 <= k < |rows| ==> rows[k].serverHostname != MinuteKey
  }

  /**
   * One record per distinct minute of the input, in the order in which each
   * minute first occurs; every record has a "minute" property, and when no
   * row names a server "minute" that property is the record's minute.
   */
  lemma PivotOneRecordPerMinute(rows: seq<TrafficRow>)
    ensures var p, ms := Pivoted(rows), Dedup(Minutes(rows));
      && |p| == |ms|
      && (forall i :: 0 <= i < |p| ==> MinuteKey in p[i].fields)
      && (NoServerNamedMinute(rows) ==> forall i :: 0 <= i < |p| ==> p[i].fields[MinuteKey] == Str(ms[i]))
      && Distinct(ms)
      && (forall m :: m in ms <==> exists k :: 0 <= k < |rows| && rows[k].minute == m)
      && (forall i, j :: 0 <= i < j < |ms| ==> FirstIndex(Minutes(rows), ms[i]) < FirstIndex(Minutes(rows), ms[j]))
  {
    var p, ms := Pivoted(rows), Dedup(Minutes(rows));
    forall i | 0 <= i < |p| ensures MinuteKey in p[i].fields {
      assert RecordMatches(p[i], rows, ms[i]);
    }
    if NoServerNamedMinute(rows) {
      forall i | 0 <= i < |p| ensures p[i].fields[MinuteKey] == Str(ms[i]) {
        assert LastCount(rows, ms[i], MinuteKey).None?;
      }
    }
    forall m ensures m in ms <==> exists k :: 0 <= k < |rows| && rows[k].minute == m {
      if m in Minutes(rows) {
        var k := FirstIndex(Minutes(rows), m);
        assert rows[k].minute == m;
      }
    }
  }

  /**
   * Last write wins, and nothing else is written: in the record of a minute,
   * a server other than "minute" is present exactly when some row pairs it
   * with that minute, and then holds the count of the last such row.
   */
  lemma PivotLastWriteWins(rows: seq<TrafficRow>, i: nat, host: string)
    requires i < |Dedup(Minutes(rows))| && host != MinuteKey
    ensures var rec, m := Pivoted(rows)[i], Dedup(Minutes(rows))[i];
      && (host in rec.fields <==> exists k :: 0 <= k < |rows| && Writes(rows[k], m, host))
      && (host in rec.fields ==>
            exists k :: 0 <= k < |rows| && Writes(rows[k], m, host) && rec.fields[host] == Num(rows[k].cnt) &&
                        forall k' :: k < k' < |rows| ==> !Writes(rows[k'], m, host))
  {
  }

  // ---------------------------------------------------------------------------
  // trafficServerKeys

  /** `Object.keys(row).filter((k) => k !== "minute")` */
  function ServerKeysOf(keys: seq<string>): (r: seq<string>)
    ensures forall k :: k in r <==> k in keys && k != MinuteKey
  {
    if keys == [] then []
    else ServerKeysOf(keys[..|keys| - 1]) + (if keys[|keys| - 1] != MinuteKey then [keys[|keys| - 1]] else [])
  }

  /** `trafficData.flatMap(...)`: every record's non-"minute" keys, record after record. */
  function KeyStream(data: seq<Record>): (r: seq<string>)
    ensures forall k :: k in r <==> k != MinuteKey && exists i :: 0 <= i < |data| && k in data[i].keys
  {
    if data == [] then []
    else
      var init := data[..|data| - 1];
      var r := KeyStream(init) + ServerKeysOf(data[|data| - 1].keys);
      assert forall i :: 0 <= i < |init| ==> init[i] == data[i];
      r
  }

  /**
   * `trafficServerKeys`: every non-"minute" key of every record, each exactly
   * once, in the order of first appearance.
   */
  function ServerKeys(data: seq<Record>): (r: seq<string>)
    ensures Distinct(r)
    ensures forall k :: k in r <==> k in KeyStream(data)
    ensures forall k :: k in r <==> k != MinuteKey && exists i :: 0 <= i < |data| && k in data[i].keys
    ensures forall i, j :: 0 <= i < j < |r| ==> FirstIndex(KeyStream(data), r[i]) < FirstIndex(KeyStream(data), r[j])
  {
    Dedup(KeyStream(data))
  }

  /** A host key of a pivoted record comes from some row naming that host. */
  lemma RecordHostHasRow(rows: seq<TrafficRow>, h: string, i: nat)
    requires h != MinuteKey && i < |Pivoted(rows)| && h in Pivoted(rows)[i].keys
    ensures exists k :: 0 <= k < |rows| && rows[k].serverHostname == h
  {
    var p, ms := Pivoted(rows), Dedup(Minutes(rows));
    assert RecordMatches(p[i], rows, ms[i]);
    assert LastCount(rows, ms[i], h).Some?;
    var k :| 0 <= k < |rows| && Writes(rows[k], ms[i], h);
  }

  /** The host of every row is a key of the pivoted record of that row's minute. */
  lemma RowHostInRecord(rows: seq<TrafficRow>, k: nat)
    requires k < |rows| && rows[k].serverHostname != MinuteKey
    ensures exists i :: 0 <= i < |Pivoted(rows)| && Dedup(Minutes(rows))[i] == rows[k].minute &&
                       rows[k].serverHostname in Pivoted(rows)[i].keys
  {
    var p, ms := Pivoted(rows), Dedup(Minutes(rows));
    var h, m := rows[k].serverHostname, rows[k].minute;
    assert Minutes(rows)[k] == m;
    assert m in ms;
    var i :| 0 <= i < |ms| && ms[i] == m;
    assert Writes(rows[k], ms[i], h);
    assert RecordMatches(p[i], rows, ms[i]);
    assert h in p[i].fields;
  }

  /** A hostname other than "minute" is a key of some pivoted record exactly when some row names it. */
  lemma HostInSomeRecord(rows: seq<TrafficRow>, h: string)
    requires h != MinuteKey
    ensures (exists i :: 0 <= i < |Pivoted(rows)| && h in Pivoted(rows)[i].keys) <==>
            exists k :: 0 <= k < |rows| && rows[k].serverHostname == h
  {
    var p := Pivoted(rows);
    if exists i :: 0 <= i < |p| && h in p[i].keys {
      var i :| 0 <= i < |p| && h in p[i].keys;
      RecordHostHasRow(rows, h, i);
    }
    if exists k :: 0 <= k < |rows| && rows[k].serverHostname == h {
      var k :| 0 <= k < |rows| && rows[k].serverHostname == h;
      RowHostInRecord(rows, k);
    }
  }

  /** The chart draws one series for each server hostname (other than "minute") in the traffic rows. */
  lemma PivotServerKeys(rows: seq<TrafficRow>)
    ensures forall h :: h in ServerKeys(Pivoted(rows)) <==>
                        h != MinuteKey && exists k :: 0 <= k < |rows| && rows[k].serverHostname == h
  {
    var p, ms := Pivoted(rows), Dedup(Minutes(rows));
    forall h ensures h in ServerKeys(p) <==> h != MinuteKey && exists k :: 0 <= k < |rows| && rows[k].serverHostname == h {
      if h != MinuteKey {
        HostInSomeRecord(rows, h);
      }
    }
  }

}
