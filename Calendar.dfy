/** The exam calendar of src/modules/calendar.py. The event file
    `json.loads(bucket.get_object("考试日历/events_date.json").read())["events"]`
    is an input (`None` when any step raises), as is the image listing
    `bucket.list_objects(prefix="考试日历/images/").object_list`. Dates stay
    strings, as in the JSON: they are ordered as strings and read with the
    model of `strptime(date, "%Y-%m-%d")`. */
module Calendar {
  import opened Common
  import opened Sorting
  import Helpers

  datatype Event = Event(date: string, name: string, regions: seq<string>, sources: seq<string>, image: Option<string>)

  datatype Image = Image(key: string, name: string, url: string)

  datatype CalendarData = CalendarData(events: seq<Event>, images: seq<Image>)

  // ---------------------------------------------------------------------------
  // load_calendar_data

  /** `key.lower().endswith((".jpg", ".jpeg", ".png"))`. */
  predicate IsImageKey(key: string) {
    EndsWith(Lower(key), ".jpg") || EndsWith(Lower(key), ".jpeg") || EndsWith(Lower(key), ".png")
  }

  function ImageOf(key: string, endpoint: string): (r: Image)
    ensures r.key == key && r.url == endpoint + "/" + key
    ensures r.name == LastPiece(key, '/') && '/' !in r.name
  {
    SplitPiecesAvoidSeparator(key, '/');
    Image(key, LastPiece(key, '/'), endpoint + "/" + key)
  }

  /** The `images` list the loop builds, in listing order. */
  function ImagesOf(keys: seq<string>, endpoint: string): (r: seq<Image>)
    ensures forall img :: img in r ==> exists k :: k in keys && IsImageKey(k) && img == ImageOf(k, endpoint)
    ensures forall k :: k in keys && IsImageKey(k) ==> ImageOf(k, endpoint) in r
  {
    if keys == [] then []
    else
      var front := keys[..|keys| - 1];
      var key := keys[|keys| - 1];
      assert keys == front + [key];
      var rest := ImagesOf(front, endpoint);
      if IsImageKey(key) then rest + [ImageOf(key, endpoint)] else rest
  }

  /** `sorted(events, key=lambda x: x["date"])`: `a` goes ahead of `b` when its date string is smaller. */
  predicate DateBefore(a: Event, b: Event) {
    StrLess(a.date, b.date)
  }

  lemma EventOrder()
    ensures StrictWeakOrder(DateBefore)
  {
    forall a: Event ensures !DateBefore(a, a) {
      StrLessIrreflexive(a.date);
    }
    forall a: Event, b: Event, c: Event | DateBefore(a, b) && DateBefore(b, c)
      ensures DateBefore(a, c)
    {
      StrLessTransitive(a.date, b.date, c.date);
    }
    forall a: Event, b: Event, c: Event | !DateBefore(a, b) && !DateBefore(b, c)
      ensures !DateBefore(a, c)
    {
      StrLessNotLessTransitive(a.date, b.date, c.date);
    }
  }

  /** load_calendar_data: the events sorted by date and the image files of the
      listing; any failure gives empty data. */
  method LoadCalendarData(events: Option<seq<Event>>, listing: Option<seq<string>>, endpoint: string)
    returns (data: CalendarData)
    ensures events.None? || listing.None? ==> data == CalendarData([], [])
    ensures events.Some? && listing.Some? ==>
      data == CalendarData(SortBy(events.value, DateBefore), ImagesOf(listing.value, endpoint))
  {
    if events.None? || listing.None? {
      return CalendarData([], []);
    }
    var keys := listing.value;
    var images: seq<Image> := [];
    for i := 0 to |keys|
      invariant images == ImagesOf(keys[..i], endpoint)
    {
      assert keys[..i + 1][..i] == keys[..i];
      if IsImageKey(keys[i]) {
        images := images + [ImageOf(keys[i], endpoint)];
      }
    }
    assert keys[..|keys|] == keys;
    return CalendarData(SortBy(events.value, DateBefore), images);
  }

  /** The loaded events are the file's events, each as often as there, in
      non-decreasing date order. */
  lemma LoadedEventsSorted(events: seq<Event>)
    ensures SortedBy(SortBy(events, DateBefore), DateBefore)
    ensures multiset(SortBy(events, DateBefore)) == multiset(events)
  {
    EventOrder();
    SortBySorted(events, DateBefore);
  }

  // ---------------------------------------------------------------------------
  // Year options, filter and month buckets. Each reads a date with strptime,
  // which raises on a malformed date; the model requires every date to parse.

  predicate DatesParse(events: seq<Event>) {
    forall i :: 0 <= i < |events| ==> Helpers.ParseYmd(events[i].date).Some?
  }

  function YearOf(e: Event): int
    requires Helpers.ParseYmd(e.date).Some?
  {
    Helpers.ParseYmd(e.date).value.year
  }

  function MonthOf(e: Event): (r: int)
    requires Helpers.ParseYmd(e.date).Some?
    ensures 1 <= r <= 12
  {
    Helpers.ParseYmd(e.date).value.month
  }

  predicate StrictlyDecreasing(s: seq<int>) {
    forall i, j :: 0 <= i < j < |s| ==> s[i] > s[j]
  }

  /** Adds `y` to a strictly decreasing list, unless it is already there. */
  function InsertDesc(y: int, s: seq<int>): (r: seq<int>)
    requires StrictlyDecreasing(s)
    ensures StrictlyDecreasing(r)
    ensures forall x :: x in r <==> x == y || x in s
  {
    if s == [] then [y]
    else if y > s[0] then [y] + s
    else if y == s[0] then s
    else
      var t := InsertDesc(y, s[1..]);
      HeadAboveTail(s);
      var r := [s[0]] + t;
      assert forall i :: 0 < i < |r| ==> r[i] == t[i - 1] && r[i] in t;
      r
  }

  /** The head of a strictly decreasing list exceeds everything after it. */
  lemma HeadAboveTail(s: seq<int>)
    requires s != [] && StrictlyDecreasing(s)
    ensures forall x :: x in s[1..] ==> x < s[0]
  {
    forall x | x in s[1..] ensures x < s[0] {
      var j :| 0 <= j < |s[1..]| && s[1..][j] == x;
      assert s[j + 1] == x;
    }
  }

  /** `sorted({strptime(e["date"]).year for e in events}, reverse=True)`. */
  function YearOptions(events: seq<Event>): (r: seq<int>)
    requires DatesParse(events)
    ensures StrictlyDecreasing(r)
    ensures forall y :: y in r <==> exists i :: 0 <= i < |events| && YearOf(events[i]) == y
  {
    if events == [] then []
    else
      var front := events[..|events| - 1];
      var rest := YearOptions(front);
      var r := InsertDesc(YearOf(events[|events| - 1]), rest);
      assert forall i :: 0 <= i < |front| ==> front[i] == events[i];
      r
  }

  /** The search test: the lowered query occurs in the lowered name or in some lowered region. */
  predicate Matches(e: Event, query: string) {
    Contains(Lower(e.name), Lower(query)) || exists k :: 0 <= k < |e.regions| && Contains(Lower(e.regions[k]), Lower(query))
  }

  /** `filtered_events`, in the order of `events`. */
  function FilteredEvents(events: seq<Event>, selectedYear: int, query: string): (r: seq<Event>)
    requires DatesParse(events)
    ensures DatesParse(r)
    ensures forall i :: 0 <= i < |r| ==> YearOf(r[i]) == selectedYear && Matches(r[i], query)
    ensures forall e :: e in events && YearOf(e) == selectedYear && Matches(e, query) ==> e in r
    ensures forall e :: e in r ==> e in events
  {
    if events == [] then []
    else
      var front := events[..|events| - 1];
      var e := events[|events| - 1];
      assert events == front + [e];
      var rest := FilteredEvents(front, selectedYear, query);
      if YearOf(e) == selectedYear && Matches(e, query) then rest + [e] else rest
  }

  /** The empty query matches every event. */
  lemma EmptyQueryMatchesAll(e: Event)
    ensures Matches(e, "")
  {
    assert OccursAt(Lower(e.name), Lower(""), 0);
  }

  /** The events of month `m`, in their order. */
  function MonthBucket(events: seq<Event>, m: int): (r: seq<Event>)
    requires DatesParse(events)
    ensures forall i :: 0 <= i < |r| ==> r[i] in events && Helpers.ParseYmd(r[i].date).Some? && MonthOf(r[i]) == m
    ensures forall e :: e in events && MonthOf(e) == m ==> e in r
  {
    if events == [] then []
    else
      var front := events[..|events| - 1];
      var e := events[|events| - 1];
      assert events == front + [e];
      var rest := MonthBucket(front, m);
      if MonthOf(e) == m then rest + [e] else rest
  }

  /** One more event extends its own month's bucket and no other. */
  lemma MonthBucketStep(events: seq<Event>, i: nat, m: int)
    requires DatesParse(events) && i < |events|
    ensures DatesParse(events[..i]) && DatesParse(events[..i + 1])
    ensures MonthBucket(events[..i + 1], m)
         == if MonthOf(events[i]) == m then MonthBucket(events[..i], m) + [events[i]] else MonthBucket(events[..i], m)
  {
    assert events[..i + 1][..i] == events[..i];
  }

  /** `monthly_events`: the `defaultdict` after the loop, holding a key only
      for the months that received an event. */
  method MonthlyEvents(filtered: seq<Event>) returns (buckets: map<int, seq<Event>>)
    requires DatesParse(filtered)
    ensures forall m :: m in buckets ==> 1 <= m <= 12 && buckets[m] == MonthBucket(filtered, m) && buckets[m] != []
    ensures forall m :: 1 <= m <= 12 && MonthBucket(filtered, m) != [] ==> m in buckets
  {
    buckets := map[];
    for i := 0 to |filtered|
      invariant forall m :: m in buckets ==> 1 <= m <= 12 && buckets[m] == MonthBucket(filtered[..i], m) && buckets[m] != []
      invariant forall m :: 1 <= m <= 12 && MonthBucket(filtered[..i], m) != [] ==> m in buckets
    {
      var month := MonthOf(filtered[i]);
      var current := if month in buckets then buckets[month] else [];
      MonthBucketStep(filtered, i, month);
      buckets := buckets[month := current + [filtered[i]]];
      forall m | m in buckets
        ensures 1 <= m <= 12 && buckets[m] == MonthBucket(filtered[..i + 1], m) && buckets[m] != []
      {
        MonthBucketStep(filtered, i, m);
      }
      forall m | 1 <= m <= 12 && MonthBucket(filtered[..i + 1], m) != [] ensures m in buckets {
        MonthBucketStep(filtered, i, m);
      }
    }
    assert filtered[..|filtered|] == filtered;
  }

  /** The total size of the buckets of months `lo` to `hi - 1`. */
  function BucketSizes(events: seq<Event>, lo: int, hi: int): nat
    requires DatesParse(events)
    decreases hi - lo
  {
    if hi <= lo then 0 else BucketSizes(events, lo, hi - 1) + |MonthBucket(events, hi - 1)|
  }

  lemma {:induction false} BucketSizesAppend(events: seq<Event>, e: Event, lo: int, hi: int)
    requires DatesParse(events + [e])
    requires DatesParse(events) && Helpers.ParseYmd(e.date).Some?
    ensures BucketSizes(events + [e], lo, hi)
         == BucketSizes(events, lo, hi) + (if lo <= MonthOf(e) < hi then 1 else 0)
    decreases hi - lo
  {
    if lo < hi {
      BucketSizesAppend(events, e, lo, hi - 1);
      MonthBucketAppend(events, e, hi - 1);
    }
  }

  /** Appending an event extends its own month's bucket by it. */
  lemma MonthBucketAppend(events: seq<Event>, e: Event, m: int)
    requires DatesParse(events + [e])
    requires DatesParse(events) && Helpers.ParseYmd(e.date).Some?
    ensures |MonthBucket(events + [e], m)| == |MonthBucket(events, m)| + (if MonthOf(e) == m then 1 else 0)
  {
    var all := events + [e];
    assert all[..|events| + 1] == all;
    assert all[..|events|] == events;
    MonthBucketStep(all, |events|, m);
  }

  /** Every filtered event lands in exactly one of the twelve months. */
  lemma {:induction false} BucketsPartition(events: seq<Event>)
    requires DatesParse(events)
    ensures BucketSizes(events, 1, 13) == |events|
  {
    if events != [] {
      var front := events[..|events| - 1];
      assert events == front + [events[|events| - 1]];
      BucketsPartition(front);
      BucketSizesAppend(front, events[|events| - 1], 1, 13);
    }
  }

  /** `month_images`: the images whose name contains "YYYY-MM". */
  function MonthImages(images: seq<Image>, selectedYear: int, month: nat): (r: seq<Image>)
    ensures forall img :: img in r <==> img in images && Contains(img.name, IntToString(selectedYear) + "-" + Helpers.Pad2(month))
  {
    if images == [] then []
    else
      var front := images[..|images| - 1];
      var img := images[|images| - 1];
      assert images == front + [img];
      var rest := MonthImages(front, selectedYear, month);
      if Contains(img.name, IntToString(selectedYear) + "-" + Helpers.Pad2(month)) then rest + [img] else rest
  }
}
