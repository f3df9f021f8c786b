/** The snapshot a provider publishes from a bid and the publication a customer reads back from it. */
module RecommendationSnapshot {
  import opened Numbers
  import opened Options
  import opened Text

  datatype LineItem = LineItem(serviceName: string, serviceDescription: Option<string>, quantity: u32,
                               unitPriceCents: u32)

  datatype BidItem = BidItem(serviceId: string, item: LineItem, note: Option<string>)

  datatype Bid = Bid(customerMessage: Option<string>, lineItems: seq<BidItem>)

  /** The stored snapshot, as the value its JSON holds. */
  datatype Snapshot = Snapshot(
    snapshotVersion: u32, proposalVersion: u64, customerSafeReason: Option<string>, currencyCode: string,
    lineItems: seq<LineItem>, totalCents: u64)

  /** A publication row: its version column, its snapshot if the JSON deserializes, and its times. */
  datatype Row = Row(proposalVersion: int, snapshot: Option<Snapshot>, publishedAt: int, expiresAt: int)

  datatype Publication = Publication(
    proposalVersion: u64, customerSafeReason: Option<string>, currencyCode: string, lineItems: seq<LineItem>,
    totalCents: u64, publishedAt: int, expiresAt: int)

  // ---- the provider's side -------------------------------------------------------------------------

  predicate NotBlank(value: Option<string>)
  {
    value.Some? ==> !IsBlank(value.value)
  }

  predicate AtMost2000(value: Option<string>)
  {
    value.Some? ==> |value.value| <= 2000
  }

  predicate ValidBidItem(b: BidItem)
  {
    !IsBlank(b.serviceId) && !IsBlank(b.item.serviceName) && 0 < b.item.quantity <= 999
    && b.item.unitPriceCents <= 200_000_000 && NotBlank(b.note)
  }

  /** `validate_project_bid_request` */
  predicate ValidBid(bid: Bid)
  {
    && 1 <= |bid.lineItems| <= 25
    && NotBlank(bid.customerMessage) && AtMost2000(bid.customerMessage)
    && forall i :: 0 <= i < |bid.lineItems| ==> ValidBidItem(bid.lineItems[i])
  }

  function Items(lineItems: seq<BidItem>): (r: seq<LineItem>)
    ensures |r| == |lineItems| && forall i :: 0 <= i < |r| ==> r[i] == lineItems[i].item
  {
    seq(|lineItems|, i requires 0 <= i < |lineItems| => lineItems[i].item)
  }

  /** The sum as the machine forms it, one 64-bit addition after another. */
  function WrappingTotal(items: seq<LineItem>): u64
  {
    if items == [] then 0
    else
      var last := items[|items| - 1];
      AsU64(WrappingTotal(items[..|items| - 1]) + last.quantity * last.unitPriceCents)
  }

  /** The loop that totals the line items while it writes them. */
  method TotalCents(items: seq<LineItem>) returns (total: u64)
    ensures total == WrappingTotal(items)
  {
    total := 0;
    for i := 0 to |items|
      invariant total == WrappingTotal(items[..i])
    {
      assert items[..i + 1][..i] == items[..i];
      var product: nat := Product(items[i].quantity, items[i].unitPriceCents);
      total := AsU64(total + product);
    }
    assert items[..|items|] == items;
  }

  function Product(a: u32, b: u32): (p: nat)
    ensures p == a * b
  {
    a * b
  }

  /** The snapshot published for version `version` of a bid. */
  function SnapshotOf(bid: Bid, version: u64): Snapshot
  {
    Snapshot(1, version, bid.customerMessage, "USD", Items(bid.lineItems), WrappingTotal(Items(bid.lineItems)))
  }

  // ---- the customer's side ---------------------------------------------------------------------------

  predicate ReadableItem(item: LineItem)
  {
    !IsBlank(item.serviceName) && 0 < item.quantity <= 999 && item.unitPriceCents <= 200_000_000
    && NotBlank(item.serviceDescription) && AtMost2000(item.serviceDescription)
  }

  /** `publication_from_row` */
  function PublicationFromRow(row: Row): Option<Publication>
  {
    var s :- row.snapshot;
    if s.snapshotVersion != 1 || s.proposalVersion != row.proposalVersion % 0x1_0000_0000_0000_0000
       || s.currencyCode != "USD" || |s.lineItems| == 0 || |s.lineItems| > 25
       || !(NotBlank(s.customerSafeReason) && AtMost2000(s.customerSafeReason))
       || !(forall i :: 0 <= i < |s.lineItems| ==> ReadableItem(s.lineItems[i]))
    then None
    else if WrappingTotal(s.lineItems) != s.totalCents then None
    else Some(Publication(s.proposalVersion, s.customerSafeReason, s.currencyCode, s.lineItems, s.totalCents,
                          row.publishedAt, row.expiresAt))
  }

  datatype ListResult = Loaded(publications: seq<Publication>) | InvalidSnapshot

  /** The list a visit shows: all its current publications, or none if one is unreadable. */
  function ListOf(rows: seq<Row>): ListResult
  {
    if rows == [] then Loaded([])
    else
      var earlier, last := ListOf(rows[..|rows| - 1]), PublicationFromRow(rows[|rows| - 1]);
      if earlier.Loaded? && last.Some? then Loaded(earlier.publications + [last.value]) else InvalidSnapshot
  }

  predicate AllReadable(rows: seq<Row>)
  {
    forall i :: 0 <= i < |rows| ==> PublicationFromRow(rows[i]).Some?
  }

  /** The publications are what the rows read as, in order. */
  predicate ReadAs(rows: seq<Row>, publications: seq<Publication>)
  {
    |publications| == |rows|
    && forall i :: 0 <= i < |rows| ==> PublicationFromRow(rows[i]) == Some(publications[i])
  }

  lemma ReadableByLast(rows: seq<Row>, earlier: seq<Row>, last: Row)
    requires rows == earlier + [last]
    ensures AllReadable(rows) <==> AllReadable(earlier) && PublicationFromRow(last).Some?
  {
    if AllReadable(rows) {
      assert PublicationFromRow(rows[|earlier|]).Some?;
      forall i | 0 <= i < |earlier| ensures PublicationFromRow(earlier[i]).Some? {
        assert earlier[i] == rows[i];
      }
    }
  }

  lemma ReadAsByLast(rows: seq<Row>, earlier: seq<Row>, last: Row, publications: seq<Publication>, p: Publication)
    requires rows == earlier + [last] && ReadAs(earlier, publications) && PublicationFromRow(last) == Some(p)
    ensures ReadAs(rows, publications + [p])
  {
  }

  /** The list is loaded exactly when every row is readable, and then holds them in order. */
  lemma {:induction false} ListIsLoadedIff(rows: seq<Row>)
    ensures ListOf(rows).Loaded? <==> AllReadable(rows)
    ensures ListOf(rows).Loaded? ==> ReadAs(rows, ListOf(rows).publications)
  {
    if rows != [] {
      var earlier, last := rows[..|rows| - 1], rows[|rows| - 1];
      assert rows == earlier + [last];
      ListIsLoadedIff(earlier);
      ReadableByLast(rows, earlier, last);
      if ListOf(rows).Loaded? {
        ReadAsByLast(rows, earlier, last, ListOf(earlier).publications, PublicationFromRow(last).value);
      }
    }
  }

  lemma {:induction false} UnreadableRowRefusesAll(rows: seq<Row>, k: nat)
    requires k <= |rows| && ListOf(rows[..k]) == InvalidSnapshot
    ensures ListOf(rows) == InvalidSnapshot
    decreases |rows| - k
  {
    if k == |rows| {
      assert rows[..k] == rows;
    } else {
      assert rows[..k + 1][..k] == rows[..k];
      UnreadableRowRefusesAll(rows, k + 1);
    }
  }

  /** The loop of `load_for_visit` over the current publications, which stops at the first
      unreadable row. */
  method ListPublications(rows: seq<Row>) returns (r: ListResult)
    ensures r == ListOf(rows)
  {
    var publications := [];
    for i := 0 to |rows|
      invariant ListOf(rows[..i]) == Loaded(publications)
    {
      assert rows[..i + 1][..i] == rows[..i];
      var publication := PublicationFromRow(rows[i]);
      if publication.None? {
        UnreadableRowRefusesAll(rows, i + 1);
        return InvalidSnapshot;
      }
      publications := publications + [publication.value];
    }
    assert rows[..|rows|] == rows;
    r := Loaded(publications);
  }

  // ---- totals are exact --------------------------------------------------------------------------------

  function ExactTotal(items: seq<LineItem>): int
  {
    if items == [] then 0
    else
      var last := items[|items| - 1];
      ExactTotal(items[..|items| - 1]) + last.quantity * last.unitPriceCents
  }

  const LARGEST_ITEM: int := 999 * 200_000_000

  lemma ProductFits(q: nat, p: nat)
    requires q <= 999 && p <= 200_000_000
    ensures 0 <= q * p <= LARGEST_ITEM
  {
    assert q * p <= 999 * p;
  }

  lemma {:induction false} TotalIsExact(items: seq<LineItem>)
    requires |items| <= 25
    requires forall i :: 0 <= i < |items| ==> items[i].quantity <= 999 && items[i].unitPriceCents <= 200_000_000
    ensures WrappingTotal(items) == ExactTotal(items) <= |items| * LARGEST_ITEM
  {
    if items != [] {
      var n := |items| - 1;
      TotalIsExact(items[..n]);
      ProductFits(items[n].quantity, items[n].unitPriceCents);
    }
  }

  /** Whatever a stored snapshot holds, a publication the customer reads has a total that is the
      exact sum of its items, and no addition wrapped. */
  lemma ReadTotalIsExact(row: Row)
    requires PublicationFromRow(row).Some?
    ensures var p := PublicationFromRow(row).value;
      p.totalCents == ExactTotal(p.lineItems) <= 25 * LARGEST_ITEM
  {
    TotalIsExact(row.snapshot.value.lineItems);
  }

  /** Absent, or with something to say and at most 2000 characters. */
  predicate Sayable(text: Option<string>)
  {
    text.Some? ==> Trim(text.value) != "" && |text.value| <= 2000
  }

  /** What the customer can read: a snapshot of the row's own version, in dollars, of one to 25 items of
      ordinary quantity and price, whose total is the exact sum. */
  lemma ReadIff(row: Row)
    ensures PublicationFromRow(row).Some? <==>
      && row.snapshot.Some? && var s := row.snapshot.value;
      && s.snapshotVersion == 1 && s.proposalVersion == row.proposalVersion % 0x1_0000_0000_0000_0000
      && s.currencyCode == "USD" && 1 <= |s.lineItems| <= 25 && Sayable(s.customerSafeReason)
      && (forall i :: 0 <= i < |s.lineItems| ==>
            var item := s.lineItems[i];
            Trim(item.serviceName) != "" && 1 <= item.quantity <= 999 && item.unitPriceCents <= 200_000_000
            && Sayable(item.serviceDescription))
      && s.totalCents == ExactTotal(s.lineItems)
    ensures PublicationFromRow(row).Some? ==>
      var p, s := PublicationFromRow(row).value, row.snapshot.value;
      p == Publication(s.proposalVersion, s.customerSafeReason, "USD", s.lineItems, s.totalCents, row.publishedAt,
                       row.expiresAt)
  {
    if row.snapshot.Some? {
      var items := row.snapshot.value.lineItems;
      ItemsAreOrdinary(items);
      if |items| <= 25 && forall i :: 0 <= i < |items| ==> ReadableItem(items[i]) {
        TotalIsExact(items);
      }
    }
  }

  lemma ItemsAreOrdinary(items: seq<LineItem>)
    ensures (forall i :: 0 <= i < |items| ==> ReadableItem(items[i]))
       <==> forall i :: 0 <= i < |items| ==>
              var item := items[i];
              Trim(item.serviceName) != "" && 1 <= item.quantity <= 999 && item.unitPriceCents <= 200_000_000
              && Sayable(item.serviceDescription)
  {
    forall i | 0 <= i < |items|
      ensures ReadableItem(items[i]) <==>
        Trim(items[i].serviceName) != "" && 1 <= items[i].quantity <= 999 && items[i].unitPriceCents <= 200_000_000
        && Sayable(items[i].serviceDescription) {
    }
  }

  /** What a provider may bid: one to 25 items of named services, ordinary quantities and prices, notes
      that are not blank, and a message of at most 2000 characters. Service descriptions are free. */
  lemma ValidBidIff(bid: Bid)
    ensures ValidBid(bid) <==>
      && 1 <= |bid.lineItems| <= 25 && Sayable(bid.customerMessage)
      && forall i :: 0 <= i < |bid.lineItems| ==>
           var b := bid.lineItems[i];
           Trim(b.serviceId) != "" && Trim(b.item.serviceName) != "" && 1 <= b.item.quantity <= 999
           && b.item.unitPriceCents <= 200_000_000 && (b.note.Some? ==> Trim(b.note.value) != "")
  {
    forall i | 0 <= i < |bid.lineItems|
      ensures ValidBidItem(bid.lineItems[i]) <==>
        var b := bid.lineItems[i];
        Trim(b.serviceId) != "" && Trim(b.item.serviceName) != "" && 1 <= b.item.quantity <= 999
        && b.item.unitPriceCents <= 200_000_000 && (b.note.Some? ==> Trim(b.note.value) != "") {
    }
  }

  // ---- publishing and reading back -----------------------------------------------------------------------

  /** The descriptions the reader accepts; the bid validation does not look at them. */
  predicate DescriptionsReadable(bid: Bid)
  {
    forall i :: 0 <= i < |bid.lineItems| ==>
      NotBlank(bid.lineItems[i].item.serviceDescription) && AtMost2000(bid.lineItems[i].item.serviceDescription)
  }

  lemma ItemsReadableIff(bid: Bid)
    requires ValidBid(bid)
    ensures (forall i :: 0 <= i < |bid.lineItems| ==> ReadableItem(Items(bid.lineItems)[i]))
        <==> DescriptionsReadable(bid)
  {
    var items := Items(bid.lineItems);
    if DescriptionsReadable(bid) {
      forall i | 0 <= i < |items| ensures ReadableItem(items[i]) {
        assert ValidBidItem(bid.lineItems[i]);
      }
    } else {
      var i :| 0 <= i < |bid.lineItems|
        && !(NotBlank(bid.lineItems[i].item.serviceDescription)
             && AtMost2000(bid.lineItems[i].item.serviceDescription));
      assert !ReadableItem(items[i]);
    }
  }

  /** A valid bid, published at any version the column can hold, reads back if and only if each of
      its service descriptions is absent, or not blank and at most 2000 characters; and then it
      reads back as published, with the exact total. */
  lemma PublishedReadsBackIff(bid: Bid, version: u64, publishedAt: int, expiresAt: int)
    requires ValidBid(bid) && 0 < version < 0x8000_0000_0000_0000
    ensures var read := PublicationFromRow(Row(version, Some(SnapshotOf(bid, version)), publishedAt, expiresAt));
      && (read.Some? <==> DescriptionsReadable(bid))
      && (read.Some? ==> read.value == Publication(version, bid.customerMessage, "USD", Items(bid.lineItems),
                                                   read.value.totalCents, publishedAt, expiresAt))
      && (read.Some? ==> read.value.totalCents == ExactTotal(Items(bid.lineItems)))
  {
    TotalIsExact(Items(bid.lineItems));
    ItemsReadableIff(bid);
  }

  const BLANK_DESCRIPTION := Bid(None, [BidItem("s", LineItem("Mulch", Some(" "), 1, 100), None)])

  /** A valid bid with a blank description publishes a snapshot its customer cannot read, and with
      it no recommendation of the visit at all, whatever else is published there. */
  lemma BlankDescriptionHidesTheVisit(before: seq<Row>, after: seq<Row>, publishedAt: int, expiresAt: int)
    ensures ValidBid(BLANK_DESCRIPTION)
    ensures var row := Row(1, Some(SnapshotOf(BLANK_DESCRIPTION, 1)), publishedAt, expiresAt);
      ListOf(before + [row] + after) == InvalidSnapshot
  {
    TrimOfUnpadded("s");
    TrimOfUnpadded("Mulch");
    BlankIffAllWhitespace(" ");
    var row := Row(1, Some(SnapshotOf(BLANK_DESCRIPTION, 1)), publishedAt, expiresAt);
    PublishedReadsBackIff(BLANK_DESCRIPTION, 1, publishedAt, expiresAt);
    assert !NotBlank(BLANK_DESCRIPTION.lineItems[0].item.serviceDescription);
    assert (before + [row] + after)[|before|] == row;
    ListIsLoadedIff(before + [row] + after);
  }
}
