/** How true the reports about hosts are: the reported resource and the one that `get` shows next. */
module HostReport {
  import opened Core
  import opened Changes
  import opened Provider
  import opened Augeas
  import opened Host
  import opened HostTheorems
  import opened HostStability

  /** After a successful run with a new log, each update has recorded its own differences. */
  lemma {:induction false} EachRecords(st: State, upds: seq<Update>)
    requires DistinctUpdates(upds) && SetAll(st, upds).Done? && st.log == map[]
    ensures Recorded(SetAll(st, upds).st, upds)
    decreases |upds|
  {
    if upds != [] {
      hide SetOne, LogFor, DistinctUpdates, Update.Name;
      var rest, last := upds[..|upds| - 1], upds[|upds| - 1];
      DistinctFront(upds);
      SetAllLast(st, upds);
      UpdatesSplit(upds);
      EachRecords(st, rest);
      LogForWritten(SetAll(st, rest).st, last);
    }
  }

  lemma DistinctFront(upds: seq<Update>)
    requires DistinctUpdates(upds) && upds != []
    ensures DistinctUpdates(upds[..|upds| - 1])
    ensures forall u :: u in upds[..|upds| - 1] ==> u.Name() != upds[|upds| - 1].Name()
  {
  }

  /** What is known of an actual state that stems from `get`. */
  lemma ActualFromGet(upd: Update)
    requires FromGet(upd.actual)
    ensures forall a :: a in upd.actual.attrs ==> upd.actual.attrs[a].IsSet()
    ensures TextOrUnset(upd.actual.Get("ip")) && TextOrUnset(upd.actual.Get("comment"))
    ensures FilledOrUnset(upd.actual.Get("host_aliases"))
    ensures if "target" in upd.actual.attrs
            then upd.actual.Get("target") == Str(TARGET) && upd.actual.Get("ensure") == Str("present")
            else upd.actual.Get("ensure") == Str("absent")
  {
    if upd.actual.attrs != map["ensure" := Str("absent")] {
      var ip, aliases, comment :|
        && TextOrUnset(ip) && TextOrUnset(comment) && FilledOrUnset(aliases)
        && upd.actual.attrs == HostAttrs(ip, aliases, comment);
      HostEntries(ip, aliases, comment);
      hide FilledOrUnset, TextOrUnset;
    }
  }

  /** One attribute of a report, and of the resource that is shown. */
  predicate Tells(told: Resource, shown: Resource, attr: string) {
    told.Get(attr) == shown.Get(attr)
  }

  lemma TextToldIff(v: Value)
    ensures v == TextOf(v) <==> TextOrUnset(v)
  {
  }

  lemma ListToldIff(v: Value)
    ensures v == ArrayOrUnset(AliasList(v)) <==> FilledOrUnset(v)
  {
  }

  /** The desired value decides: what `get` has shown is told as it was. */
  lemma DesiredDecides(upd: Update)
    requires FromGet(upd.actual)
    ensures TextOrUnset(upd.At("ip")) <==> TextOrUnset(upd.should.Get("ip"))
    ensures TextOrUnset(upd.At("comment")) <==> TextOrUnset(upd.should.Get("comment"))
    ensures FilledOrUnset(upd.At("host_aliases")) <==> FilledOrUnset(upd.should.Get("host_aliases"))
    ensures Ensure(upd) == "present" ==>
              (upd.At("ensure") == Str("present") <==> TextOrUnset(upd.should.Get("ensure"))) && !WantsAbsent(upd)
  {
    ActualFromGet(upd);
    hide FromGet;
  }

  lemma LogIsDiff(upd: Update)
    ensures LogOf(upd) == DiffLog(upd, PROPERTIES)
    ensures "ip" in PROPERTIES && "host_aliases" in PROPERTIES && "comment" in PROPERTIES && "target" !in PROPERTIES
  {
    hide AddDiffs;
    assert PROPERTIES[0] == "ip" && PROPERTIES[1] == "host_aliases" && PROPERTIES[2] == "comment";
  }

  /** What is reported about one update, and what it is that `get` shows. */
  lemma OneUpdateToldIff(upd: Update)
    requires FromGet(upd.actual) && Ensure(upd) == "present"
    ensures var told, shown, should := Report(upd, LogOf(upd)), Shown(upd), upd.should;
            && (Tells(told, shown, "ensure") <==> TextOrUnset(should.Get("ensure")))
            && (Tells(told, shown, "ip") <==> TextOrUnset(should.Get("ip")))
            && (Tells(told, shown, "host_aliases") <==> FilledOrUnset(should.Get("host_aliases")))
            && (Tells(told, shown, "comment") <==> TextOrUnset(should.Get("comment")))
            && (Tells(told, shown, "target") <==>
                  "target" in upd.actual.attrs || should.Get("target") == Str(TARGET))
  {
    hide Shown, Report, LogOf, DiffLog, FromGet, PROPERTIES, Ensure, WantsAbsent, TextOrUnset, FilledOrUnset, TextOf,
         ArrayOrUnset, AliasList, Update.At;
    ActualFromGet(upd);
    DesiredDecides(upd);
    ShownAttrs(upd);
    LogIsDiff(upd);
    ComparedIsReported(upd, PROPERTIES, "ensure");
    ComparedIsReported(upd, PROPERTIES, "ip");
    ComparedIsReported(upd, PROPERTIES, "host_aliases");
    ComparedIsReported(upd, PROPERTIES, "comment");
    OtherIsReported(upd, PROPERTIES, "target");
    TextToldIff(upd.At("ip"));
    TextToldIff(upd.At("comment"));
    ListToldIff(upd.At("host_aliases"));
  }

  /**
   * After a successful run with a new log, what was reported about an update that ends in
   * "present" is what `get` shows exactly under these conditions: texts that were given as such, a
   * list of aliases that is not empty, and a target that was there or was asked for.
   */
  lemma ReportToldIff(st: State, upds: seq<Update>, u: Update)
    requires Ok(st) && DistinctUpdates(upds) && SetAll(st, upds).Done? && st.log == map[]
    requires u in upds && Ensure(u) == "present" && FromGet(u.actual)
    ensures Ok(SetAll(st, upds).st) && |Named(View(SetAll(st, upds).st.entries), u.Name())| == 1
    ensures var st', should := SetAll(st, upds).st, u.should;
            var told, shown := Report(u, Entries(st'.log, u.Name())), Named(View(st'.entries), u.Name())[0];
            && (Tells(told, shown, "ensure") <==> TextOrUnset(should.Get("ensure")))
            && (Tells(told, shown, "ip") <==> TextOrUnset(should.Get("ip")))
            && (Tells(told, shown, "host_aliases") <==> FilledOrUnset(should.Get("host_aliases")))
            && (Tells(told, shown, "comment") <==> TextOrUnset(should.Get("comment")))
            && (Tells(told, shown, "target") <==> "target" in u.actual.attrs || should.Get("target") == Str(TARGET))
  {
    hide SetAll, Ok, View, Named, Shown, Report, LogOf, DistinctUpdates, FromGet, Others, TextOrUnset, FilledOrUnset;
    RunShowsOverlays(st, upds);
    EachRecords(st, upds);
    OneUpdateToldIff(u);
  }

  /** An update that ends in "absent" is reported as `get` shows it, unless `ensure` is no text. */
  lemma AbsenceToldIff(upd: Update)
    requires FromGet(upd.actual) && Ensure(upd) == "absent"
    ensures Report(upd, LogFor(upd)) == AbsentResource(upd.Name()) <==> TextOrUnset(upd.should.Get("ensure"))
  {
    ActualFromGet(upd);
    hide FromGet;
    if !TextOrUnset(upd.should.Get("ensure")) {
      OverrideAt(upd.should.attrs + upd.actual.attrs, LogFor(upd), "ensure");
      hide Override;
      assert Report(upd, LogFor(upd)).Get("ensure") != Str("absent");
    }
  }
}
