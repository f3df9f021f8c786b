/** The completion report: how one is built from a job's evidence, the snapshot frozen at
    delivery, and the customer's view of it. */
module CompletionReport {
  import opened Doubles
  import opened Numbers
  import opened Options
  import opened Text

  const SNAPSHOT_VERSION: u32 := 1

  // ---- data -------------------------------------------------------------------------------------

  datatype Status = Draft | Submitted | InReview | ChangesRequested | Delivered

  function StatusText(status: Status): string
  {
    match status
    case Draft => "draft"
    case Submitted => "submitted"
    case InReview => "in_review"
    case ChangesRequested => "changes_requested"
    case Delivered => "delivered"
  }

  datatype ChecklistItem = ChecklistItem(id: string, caption: string, completed: bool)

  datatype JobDetail = JobDetail(
    id: string, organizationId: string, assignedCrewId: Option<string>, customerName: string,
    propertyAddress: string, status: string, scheduledDate: string, beforePhotos: u32,
    afterPhotos: u32, checklistItems: u32, completedChecklistItems: u32, checklist: seq<ChecklistItem>)

  datatype Account = Account(
    jobId: string, accountId: string, customerName: string, billingModel: string,
    paymentStatus: string, serviceApprovalStatus: string, contractedServicesPerPeriod: u32,
    completedServicesThisPeriod: u32, billingNotes: string)

  datatype Photo = Photo(
    id: string, jobId: string, photoType: string, fileName: string, contentType: string,
    objectKey: string, status: string, uploadMode: string, displayUrl: string,
    thumbnailUrl: Option<string>, fileSizeBytes: Option<int>, imageWidthPx: Option<int>,
    imageHeightPx: Option<int>, metadataSource: Option<string>)

  datatype AddOn = AddOn(
    id: string, jobId: string, serviceName: string, serviceDescription: Option<string>,
    quantity: u32, unitPriceCents: u32, note: Option<string>, status: string)

  datatype RouteStop = RouteStop(
    dayPlanId: string, crewId: string, serviceDate: string, stopId: string, stopOrder: u32, stopStatus: string)

  datatype Evidence = Evidence(
    beforePhotos: u32, afterPhotos: u32, issuePhotos: u32, totalPhotoEvidence: u32, completedAddOns: u32)

  datatype Metadata = Metadata(
    snapshotVersion: u32, reportId: string, jobId: string, capturedAtEpochSeconds: u64, evidence: Evidence)

  datatype Report = Report(
    reportId: string, jobId: string, reportStatus: Status, persisted: bool, readyForCustomer: bool,
    readinessBlockers: seq<string>, checklistProgress: u32, beforePhotos: u32, afterPhotos: u32,
    issuePhotos: u32, pendingAddOns: u32, routeStop: Option<RouteStop>, shareUrl: Option<string>,
    job: JobDetail, account: Account, photoEvidence: seq<Photo>, completedAddOns: seq<AddOn>,
    snapshotMetadata: Option<Metadata>)

  /** What the store answers after a write. */
  datatype Persistence = Persistence(
    persisted: bool, reportStatus: Option<Status>, readyForCustomer: Option<bool>,
    checklistProgress: Option<u32>, beforePhotos: Option<u32>, afterPhotos: Option<u32>,
    issuePhotos: Option<u32>, shareToken: Option<string>)

  // ---- building a report -------------------------------------------------------------------------

  function CompletionReportId(jobId: string): string
  {
    "report_" + jobId
  }

  lemma ReportIdInjective(a: string, b: string)
    ensures CompletionReportId(a) == CompletionReportId(b) <==> a == b
    ensures |CompletionReportId(a)| == |a| + 7 && CompletionReportId(a)[..7] == "report_"
  {
    assert CompletionReportId(a)[7..] == a && CompletionReportId(b)[7..] == b;
  }

  /** `completion_progress`, in doubles, with a saturating cast at the end. */
  function CompletionProgress(job: JobDetail): (p: u32)
  {
    if job.checklistItems == 0 then 0
    else
      var rounded := Percentage(job.completedChecklistItems, job.checklistItems);
      if rounded < 0x1_0000_0000 then rounded else 0xffff_ffff
  }

  /** A nonempty checklist rounds to exactly 100 when at most one item in 200 is open, and
      never above it while the completed items are among the items. */
  lemma ProgressIsHundredIff(job: JobDetail)
    requires job.completedChecklistItems <= job.checklistItems
    ensures CompletionProgress(job) <= 100
    ensures CompletionProgress(job) == 100
       <==> job.checklistItems > 0
            && 200 * (job.checklistItems - job.completedChecklistItems) <= job.checklistItems
  {
    if job.checklistItems > 0 {
      PercentageIsHundredIff(job.completedChecklistItems, job.checklistItems);
    }
  }

  /** A nonempty checklist shows the exact percentage rounded half up, unless its completed items
      are 29, 57, 113 or 115 in 200: then the doubles lose the half, and it shows one less. */
  lemma ProgressIsHalfUpIff(job: JobDetail)
    requires job.completedChecklistItems <= job.checklistItems && job.checklistItems > 0
    ensures var part, whole := job.completedChecklistItems, job.checklistItems;
            var exact := (200 * part + whole) / (2 * whole);
      && (CompletionProgress(job) == exact
          <==> 200 * part !in {29 * whole, 57 * whole, 113 * whole, 115 * whole})
      && (CompletionProgress(job) == exact || CompletionProgress(job) == exact - 1)
  {
    PercentageIsHalfUpIff(job.completedChecklistItems, job.checklistItems);
    PercentageIsHundredIff(job.completedChecklistItems, job.checklistItems);
  }

  lemma ProgressOfLostHalf(job: JobDetail, exact: int)
    requires job.completedChecklistItems <= job.checklistItems && job.checklistItems > 0
    requires 200 * job.completedChecklistItems == 57 * job.checklistItems
    requires (200 * job.completedChecklistItems + job.checklistItems) / (2 * job.checklistItems) == exact
    ensures CompletionProgress(job) == exact - 1
  {
    ProgressIsHalfUpIff(job);
  }

  /** One of the four: 57 of 200 items, 28.5 percent, shows 28. */
  lemma ProgressCanLoseAHalf(job: JobDetail)
    requires job.completedChecklistItems == 57 && job.checklistItems == 200
    ensures CompletionProgress(job) == 28
  {
    ProgressOfLostHalf(job, 29);
  }

  function CountPhotoType(photos: seq<Photo>, photoType: string): nat
  {
    if photos == [] then 0
    else (if photos[0].photoType == photoType then 1 else 0) + CountPhotoType(photos[1..], photoType)
  }

  lemma {:induction false} CountWithLast(photos: seq<Photo>, last: Photo, photoType: string)
    ensures CountPhotoType(photos + [last], photoType)
         == CountPhotoType(photos, photoType) + (if last.photoType == photoType then 1 else 0)
  {
    if photos == [] {
      assert photos + [last] == [last];
    } else {
      CountWithLast(photos[1..], last, photoType);
      assert (photos + [last])[1..] == photos[1..] + [last];
    }
  }

  /** The photos of a type, by their places in the list. */
  ghost function PlacesOf(photos: seq<Photo>, photoType: string): set<int>
  {
    set i | 0 <= i < |photos| && photos[i].photoType == photoType
  }

  lemma PlacesWithLast(photos: seq<Photo>, last: Photo, photoType: string)
    ensures PlacesOf(photos + [last], photoType)
         == PlacesOf(photos, photoType) + (if last.photoType == photoType then {|photos|} else {})
  {
    var all := photos + [last];
    assert all[|photos|] == last && forall i :: 0 <= i < |photos| ==> all[i] == photos[i];
  }

  lemma {:induction false} PhotosAreCounted(photos: seq<Photo>, photoType: string)
    ensures CountPhotoType(photos, photoType) == |PlacesOf(photos, photoType)| <= |photos|
  {
    if photos == [] {
      assert PlacesOf(photos, photoType) == {};
    } else {
      var earlier, last := photos[..|photos| - 1], photos[|photos| - 1];
      PhotosAreCounted(earlier, photoType);
      assert photos == earlier + [last];
      CountWithLast(earlier, last, photoType);
      PlacesWithLast(earlier, last, photoType);
    }
  }

  function CompletedAddOns(addOns: seq<AddOn>): (r: seq<AddOn>)
    ensures |r| <= |addOns|
  {
    if addOns == [] then []
    else (if addOns[0].status == "completed" then [addOns[0]] else []) + CompletedAddOns(addOns[1..])
  }

  /** The completed add-ons are kept as often as they occur, in any order; no other is. */
  lemma {:induction false} OnlyCompletedAddOns(addOns: seq<AddOn>, addOn: AddOn)
    ensures multiset(CompletedAddOns(addOns))[addOn]
         == if addOn.status == "completed" then multiset(addOns)[addOn] else 0
  {
    if addOns != [] {
      OnlyCompletedAddOns(addOns[1..], addOn);
      assert addOns == [addOns[0]] + addOns[1..];
    }
  }

  lemma {:induction false} AllCompletedIff(addOns: seq<AddOn>)
    ensures |CompletedAddOns(addOns)| == |addOns| <==>
      forall i :: 0 <= i < |addOns| ==> addOns[i].status == "completed"
  {
    if addOns != [] {
      AllCompletedIff(addOns[1..]);
      assert forall i :: 1 <= i < |addOns| ==> addOns[i] == addOns[1..][i - 1];
    }
  }

  function Max(a: u32, b: u32): u32
  {
    if a >= b then a else b
  }

  function ReadinessBlockers(checklistProgress: u32, beforePhotos: u32, afterPhotos: u32, pendingAddOns: u32,
                             routeStop: Option<RouteStop>): seq<string>
  {
    (if checklistProgress < 100 then ["checklist"] else [])
    + (if beforePhotos == 0 then ["before_photos"] else [])
    + (if afterPhotos == 0 then ["after_photos"] else [])
    + (if pendingAddOns > 0 then ["add_ons"] else [])
    + (if routeStop.Some? && routeStop.value.stopStatus != "finished" then ["route_stop"] else [])
  }

  /** No blocker is reported exactly when every requirement of delivery is met. */
  lemma NoBlockersIff(checklistProgress: u32, beforePhotos: u32, afterPhotos: u32, pendingAddOns: u32,
                      routeStop: Option<RouteStop>)
    ensures ReadinessBlockers(checklistProgress, beforePhotos, afterPhotos, pendingAddOns, routeStop) == []
       <==> checklistProgress >= 100 && beforePhotos > 0 && afterPhotos > 0 && pendingAddOns == 0
            && (routeStop.Some? ==> routeStop.value.stopStatus == "finished")
  {
  }

  /** Each blocker is named when its requirement is not met. */
  lemma BlockersAreNamed(checklistProgress: u32, beforePhotos: u32, afterPhotos: u32, pendingAddOns: u32,
                         routeStop: Option<RouteStop>)
    ensures var r := ReadinessBlockers(checklistProgress, beforePhotos, afterPhotos, pendingAddOns, routeStop);
      && ("checklist" in r <==> checklistProgress < 100)
      && ("before_photos" in r <==> beforePhotos == 0) && ("after_photos" in r <==> afterPhotos == 0)
      && ("add_ons" in r <==> pendingAddOns > 0)
      && ("route_stop" in r <==> routeStop.Some? && routeStop.value.stopStatus != "finished")
  {
    assert "checklist"[0] == 'c' && "before_photos"[0] == 'b' && "route_stop"[0] == 'r';
    assert "after_photos"[1] == 'f' && "add_ons"[1] == 'd';
  }

  function BuildCompletionReport(job: JobDetail, account: Account, photos: seq<Photo>, addOns: seq<AddOn>): Report
  {
    var progress := CompletionProgress(job);
    var beforePhotos := Max(job.beforePhotos, AsU32(CountPhotoType(photos, "before")));
    var afterPhotos := Max(job.afterPhotos, AsU32(CountPhotoType(photos, "after")));
    var pending := AsU32(|addOns| - |CompletedAddOns(addOns)|);
    var blockers := ReadinessBlockers(progress, beforePhotos, afterPhotos, pending, None);
    Report(CompletionReportId(job.id), job.id, if blockers == [] then Submitted else Draft, false,
           blockers == [], blockers, progress, beforePhotos, afterPhotos,
           AsU32(CountPhotoType(photos, "issue")), pending, None, None, job, account, photos,
           CompletedAddOns(addOns), None)
  }

  predicate HasPhoto(photos: seq<Photo>, photoType: string)
  {
    exists i :: 0 <= i < |photos| && photos[i].photoType == photoType
  }

  lemma CountedIffPresent(photos: seq<Photo>, photoType: string)
    requires |photos| < 0x1_0000_0000
    ensures AsU32(CountPhotoType(photos, photoType)) == |PlacesOf(photos, photoType)|
    ensures |PlacesOf(photos, photoType)| > 0 <==> HasPhoto(photos, photoType)
  {
    PhotosAreCounted(photos, photoType);
    if HasPhoto(photos, photoType) {
      var i :| 0 <= i < |photos| && photos[i].photoType == photoType;
      assert i in PlacesOf(photos, photoType);
    } else {
      assert PlacesOf(photos, photoType) == {};
    }
  }

  /** A report is built ready exactly when the checklist is at 100, before and after photos are on
      record at the job or in the list, and every add-on is completed. Its counts are the larger of
      the job's and the list's. */
  lemma BuiltReportIsReadyIff(job: JobDetail, account: Account, photos: seq<Photo>, addOns: seq<AddOn>)
    requires |photos| < 0x1_0000_0000 && |addOns| < 0x1_0000_0000
    ensures var r := BuildCompletionReport(job, account, photos, addOns);
      r.readyForCustomer <==>
        && CompletionProgress(job) >= 100
        && (job.beforePhotos > 0 || HasPhoto(photos, "before"))
        && (job.afterPhotos > 0 || HasPhoto(photos, "after"))
        && forall i :: 0 <= i < |addOns| ==> addOns[i].status == "completed"
    ensures var r := BuildCompletionReport(job, account, photos, addOns);
      var before, after := |PlacesOf(photos, "before")|, |PlacesOf(photos, "after")|;
      && r.beforePhotos == (if before > job.beforePhotos then before else job.beforePhotos)
      && r.afterPhotos == (if after > job.afterPhotos then after else job.afterPhotos)
      && r.issuePhotos == |PlacesOf(photos, "issue")|
      && r.photoEvidence == photos && r.job == job && r.account == account
      && r.completedAddOns == CompletedAddOns(addOns) && r.pendingAddOns + |r.completedAddOns| == |addOns|
      && !r.persisted && r.shareUrl.None? && r.snapshotMetadata.None? && r.routeStop.None?
  {
    CountedIffPresent(photos, "before");
    CountedIffPresent(photos, "after");
    CountedIffPresent(photos, "issue");
    AllCompletedIff(addOns);
    NoBlockersIff(CompletionProgress(job), Max(job.beforePhotos, AsU32(CountPhotoType(photos, "before"))),
                  Max(job.afterPhotos, AsU32(CountPhotoType(photos, "after"))),
                  AsU32(|addOns| - |CompletedAddOns(addOns)|), None);
  }

  /** `attach_completion_report_route_stop` */
  function RouteStopAttached(report: Report, routeStop: RouteStop): Report
  {
    var blockers := ReadinessBlockers(report.checklistProgress, report.beforePhotos, report.afterPhotos,
                                      report.pendingAddOns, Some(routeStop));
    report.(routeStop := Some(routeStop), readinessBlockers := blockers, readyForCustomer := blockers == [],
            reportStatus := if blockers != [] && report.reportStatus == Submitted then Draft else report.reportStatus)
  }

  /** With a route stop, a built report stays ready exactly when the stop is finished, and is a draft
      otherwise. Nothing is counted anew. */
  lemma RouteStopHoldsBack(job: JobDetail, account: Account, photos: seq<Photo>, addOns: seq<AddOn>, stop: RouteStop)
    ensures var r := BuildCompletionReport(job, account, photos, addOns); var attached := RouteStopAttached(r, stop);
      && (attached.readyForCustomer <==> r.readyForCustomer && stop.stopStatus == "finished")
      && attached.reportStatus == (if attached.readyForCustomer then Submitted else Draft)
      && (attached.readyForCustomer <==> attached.readinessBlockers == [])
      && attached == r.(routeStop := Some(stop), readinessBlockers := attached.readinessBlockers,
                        readyForCustomer := attached.readyForCustomer, reportStatus := attached.reportStatus)
  {
    var r := BuildCompletionReport(job, account, photos, addOns);
    NoBlockersIff(r.checklistProgress, r.beforePhotos, r.afterPhotos, r.pendingAddOns, None);
    NoBlockersIff(r.checklistProgress, r.beforePhotos, r.afterPhotos, r.pendingAddOns, Some(stop));
  }

  function SharedReportUrl(shareToken: string): string
  {
    "/report-view/" + shareToken
  }

  /** `apply_completion_report_persistence` */
  function PersistenceApplied(report: Report, p: Persistence): Report
  {
    var status := p.reportStatus.UnwrapOr(report.reportStatus);
    var progress := p.checklistProgress.UnwrapOr(report.checklistProgress);
    var beforePhotos := p.beforePhotos.UnwrapOr(report.beforePhotos);
    var afterPhotos := p.afterPhotos.UnwrapOr(report.afterPhotos);
    report.(persisted := p.persisted, reportStatus := status,
            readyForCustomer := p.readyForCustomer.UnwrapOr(report.readyForCustomer),
            checklistProgress := progress, beforePhotos := beforePhotos, afterPhotos := afterPhotos,
            issuePhotos := p.issuePhotos.UnwrapOr(report.issuePhotos),
            readinessBlockers := ReadinessBlockers(progress, beforePhotos, afterPhotos, report.pendingAddOns,
                                                   report.routeStop),
            shareUrl := if p.shareToken.Some? && status == Delivered then Some(SharedReportUrl(p.shareToken.value))
                        else None)
  }

  /** Each stored value is taken where there is one, and a link is shown exactly with a token and once
      delivered. */
  lemma OverlayTakesStored(report: Report, p: Persistence)
    ensures var shown := PersistenceApplied(report, p);
      && shown.reportStatus == (if p.reportStatus.Some? then p.reportStatus.value else report.reportStatus)
      && shown.readyForCustomer == (if p.readyForCustomer.Some? then p.readyForCustomer.value
                                    else report.readyForCustomer)
      && shown.checklistProgress == (if p.checklistProgress.Some? then p.checklistProgress.value
                                     else report.checklistProgress)
      && shown.beforePhotos == (if p.beforePhotos.Some? then p.beforePhotos.value else report.beforePhotos)
      && shown.afterPhotos == (if p.afterPhotos.Some? then p.afterPhotos.value else report.afterPhotos)
      && shown.issuePhotos == (if p.issuePhotos.Some? then p.issuePhotos.value else report.issuePhotos)
      && (shown.shareUrl.Some? <==> p.shareToken.Some? && shown.reportStatus == Delivered)
      && (shown.shareUrl.Some? ==> shown.shareUrl.value == "/report-view/" + p.shareToken.value)
  {
  }

  /** The report value the handlers keep updating through `&mut`. */
  class ReportCell {
    var report: Report

    constructor (job: JobDetail, account: Account, photos: seq<Photo>, addOns: seq<AddOn>)
      ensures report == BuildCompletionReport(job, account, photos, addOns)
    {
      report := BuildCompletionReport(job, account, photos, addOns);
    }

    method AttachRouteStop(routeStop: RouteStop)
      modifies this
      ensures report == RouteStopAttached(old(report), routeStop)
    {
      report := report.(routeStop := Some(routeStop));
      report := report.(readinessBlockers := ReadinessBlockers(
        report.checklistProgress, report.beforePhotos, report.afterPhotos, report.pendingAddOns, report.routeStop));
      report := report.(readyForCustomer := report.readinessBlockers == []);
      if !report.readyForCustomer && report.reportStatus == Submitted {
        report := report.(reportStatus := Draft);
      }
    }

    method ApplyPersistence(p: Persistence)
      modifies this
      ensures report == PersistenceApplied(old(report), p)
    {
      var r := report;
      r := r.(persisted := p.persisted);
      r := r.(reportStatus := p.reportStatus.UnwrapOr(r.reportStatus));
      r := r.(readyForCustomer := p.readyForCustomer.UnwrapOr(r.readyForCustomer));
      r := r.(checklistProgress := p.checklistProgress.UnwrapOr(r.checklistProgress));
      r := r.(beforePhotos := p.beforePhotos.UnwrapOr(r.beforePhotos));
      r := r.(afterPhotos := p.afterPhotos.UnwrapOr(r.afterPhotos));
      r := r.(issuePhotos := p.issuePhotos.UnwrapOr(r.issuePhotos));
      r := r.(readinessBlockers := ReadinessBlockers(
        r.checklistProgress, r.beforePhotos, r.afterPhotos, r.pendingAddOns, r.routeStop));
      report := r.(shareUrl :=
        if p.shareToken.Some? && r.reportStatus == Delivered then Some(SharedReportUrl(p.shareToken.value)) else None);
    }
  }

  /** A report as the handlers hand it to the store: built, and perhaps route-attached. */
  ghost predicate Persistable(report: Report)
  {
    exists job, account, photos, addOns ::
      var built := BuildCompletionReport(job, account, photos, addOns);
      report == built || exists stop :: report == RouteStopAttached(built, stop)
  }

  /** Such a report is submitted exactly when it is ready, and otherwise a draft. */
  lemma PersistableStatus(report: Report)
    requires Persistable(report)
    ensures report.reportStatus == (if report.readyForCustomer then Submitted else Draft)
    ensures report.readyForCustomer ==>
        report.checklistProgress >= 100 && report.beforePhotos > 0 && report.afterPhotos > 0
    ensures report.reportId == CompletionReportId(report.jobId)
  {
  }

  // ---- the delivered snapshot ----------------------------------------------------------------------

  /** `prepare_delivered_completion_report_snapshot`, at a given clock reading. */
  function PrepareDeliveredSnapshot(report: Report, epochSeconds: u64): Report
  {
    report.(
      snapshotMetadata := Some(Metadata(SNAPSHOT_VERSION, report.reportId, report.jobId, epochSeconds,
        Evidence(report.beforePhotos, report.afterPhotos, report.issuePhotos,
                 AsU32(|report.photoEvidence|), AsU32(|report.completedAddOns|)))),
      reportStatus := Delivered, shareUrl := None)
  }

  /** `is_valid_delivered_completion_report_snapshot` */
  predicate IsValidDeliveredSnapshot(reportId: string, jobId: string, snapshot: Report)
  {
    match snapshot.snapshotMetadata
    case None => false
    case Some(metadata) =>
      && snapshot.reportId == reportId
      && snapshot.jobId == jobId
      && snapshot.reportStatus == Delivered
      && snapshot.persisted
      && snapshot.readyForCustomer
      && snapshot.checklistProgress == 100
      && snapshot.beforePhotos > 0
      && snapshot.afterPhotos > 0
      && metadata.snapshotVersion == SNAPSHOT_VERSION
      && metadata.reportId == reportId
      && metadata.jobId == jobId
      && metadata.evidence.beforePhotos == snapshot.beforePhotos
      && metadata.evidence.afterPhotos == snapshot.afterPhotos
      && metadata.evidence.issuePhotos == snapshot.issuePhotos
      && metadata.evidence.totalPhotoEvidence == AsU32(|snapshot.photoEvidence|)
      && metadata.evidence.completedAddOns == AsU32(|snapshot.completedAddOns|)
  }

  /** A prepared snapshot is accepted under given ids exactly when they are the report's own
      and the report is persisted, ready, complete and has photos of both kinds. */
  lemma PreparedSnapshotIsValidIff(report: Report, epochSeconds: u64, reportId: string, jobId: string)
    ensures IsValidDeliveredSnapshot(reportId, jobId, PrepareDeliveredSnapshot(report, epochSeconds))
       <==> report.reportId == reportId && report.jobId == jobId && report.persisted && report.readyForCustomer
            && report.checklistProgress == 100 && report.beforePhotos > 0 && report.afterPhotos > 0
    ensures var snapshot := PrepareDeliveredSnapshot(report, epochSeconds);
      && snapshot.shareUrl.None? && snapshot.snapshotMetadata.Some?
      && snapshot.snapshotMetadata.value.capturedAtEpochSeconds == epochSeconds
      && snapshot == report.(reportStatus := Delivered, shareUrl := None, snapshotMetadata := snapshot.snapshotMetadata)
  {
  }

  // ---- the customer's view of a typed report -----------------------------------------------------------

  datatype CustomerChecklistItem = CustomerChecklistItem(caption: string, completed: bool)

  datatype CustomerPhoto = CustomerPhoto(photoType: string, fileName: string, imageUrl: string)

  datatype CustomerRecommendation = CustomerRecommendation(
    serviceName: string, serviceDescription: Option<string>, quantity: u32)

  datatype CustomerService = CustomerService(
    customerName: string, propertyAddress: string, scheduledDate: string, checklist: seq<CustomerChecklistItem>)

  datatype CustomerReport = CustomerReport(
    reportStatus: string, checklistProgress: u32, beforePhotos: u32, afterPhotos: u32, issuePhotos: u32,
    service: CustomerService, photoEvidence: seq<CustomerPhoto>,
    completedRecommendations: seq<CustomerRecommendation>, capturedAtEpochSeconds: Option<u64>)

  function Mapped<A, B>(f: A -> B, items: seq<A>): (r: seq<B>)
    ensures |r| == |items| && forall i :: 0 <= i < |items| ==> r[i] == f(items[i])
  {
    seq(|items|, i requires 0 <= i < |items| => f(items[i]))
  }

  function CustomerChecklistItemOf(item: ChecklistItem): CustomerChecklistItem
  {
    CustomerChecklistItem(item.caption, item.completed)
  }

  function CustomerRecommendationOf(addOn: AddOn): CustomerRecommendation
  {
    CustomerRecommendation(addOn.serviceName, addOn.serviceDescription, addOn.quantity)
  }

  function CustomerPhotoOf(photo: Photo): CustomerPhoto
  {
    CustomerPhoto(photo.photoType, photo.fileName, photo.thumbnailUrl.UnwrapOr(photo.displayUrl))
  }

  /** `customer_completion_report_response` */
  function CustomerResponse(report: Report): CustomerReport
  {
    CustomerReport(
      StatusText(report.reportStatus), report.checklistProgress, report.beforePhotos, report.afterPhotos,
      report.issuePhotos,
      CustomerService(report.job.customerName, report.job.propertyAddress, report.job.scheduledDate,
        Mapped(CustomerChecklistItemOf, report.job.checklist)),
      Mapped(CustomerPhotoOf, report.photoEvidence),
      Mapped(CustomerRecommendationOf, report.completedAddOns),
      if report.snapshotMetadata.Some? then Some(report.snapshotMetadata.value.capturedAtEpochSeconds) else None)
  }

  // ---- the stored JSON ------------------------------------------------------------------------------------

  /** `serde_json::Value`, with integers only: the snapshot holds no other number. */
  datatype Json =
    | JNull
    | JBool(b: bool)
    | JNum(n: int)
    | JStr(s: string)
    | JArr(items: seq<Json>)
    | JObj(fields: map<string, Json>)
  {
    /** `value.get(key)` */
    function Get(key: string): Option<Json>
    {
      if JObj? && key in fields then Some(fields[key]) else None
    }

    function AsStr(): Option<string>
    {
      if JStr? then Some(s) else None
    }

    function AsBool(): Option<bool>
    {
      if JBool? then Some(b) else None
    }

    function AsU64(): Option<u64>
    {
      if JNum? && 0 <= n < 0x1_0000_0000_0000_0000 then Some(n) else None
    }

    function AsArray(): Option<seq<Json>>
    {
      if JArr? then Some(items) else None
    }
  }

  /** `u32::try_from(value.as_u64()?).ok()` */
  function AsU32Checked(value: Json): Option<u32>
  {
    var n :- value.AsU64();
    if n < 0x1_0000_0000 then Some(n) else None
  }

  function OptStr(o: Option<string>): Json
  {
    if o.Some? then JStr(o.value) else JNull
  }

  function OptNum(o: Option<int>): Json
  {
    if o.Some? then JNum(o.value) else JNull
  }

  function ChecklistItemJson(item: ChecklistItem): Json
  {
    JObj(map["id" := JStr(item.id), "label" := JStr(item.caption), "completed" := JBool(item.completed)])
  }

  function JobJson(job: JobDetail): Json
  {
    JObj(map["id" := JStr(job.id), "organization_id" := JStr(job.organizationId),
             "assigned_crew_id" := OptStr(job.assignedCrewId), "customer_name" := JStr(job.customerName),
             "property_address" := JStr(job.propertyAddress), "status" := JStr(job.status),
             "scheduled_date" := JStr(job.scheduledDate), "before_photos" := JNum(job.beforePhotos),
             "after_photos" := JNum(job.afterPhotos), "checklist_items" := JNum(job.checklistItems),
             "completed_checklist_items" := JNum(job.completedChecklistItems),
             "checklist" := JArr(Mapped(ChecklistItemJson, job.checklist))])
  }

  function AccountJson(account: Account): Json
  {
    JObj(map["job_id" := JStr(account.jobId), "account_id" := JStr(account.accountId),
             "customer_name" := JStr(account.customerName), "billing_model" := JStr(account.billingModel),
             "payment_status" := JStr(account.paymentStatus),
             "service_approval_status" := JStr(account.serviceApprovalStatus),
             "contracted_services_per_period" := JNum(account.contractedServicesPerPeriod),
             "completed_services_this_period" := JNum(account.completedServicesThisPeriod),
             "billing_notes" := JStr(account.billingNotes)])
  }

  function PhotoJson(photo: Photo): Json
  {
    JObj(map["id" := JStr(photo.id), "job_id" := JStr(photo.jobId), "photo_type" := JStr(photo.photoType),
             "file_name" := JStr(photo.fileName), "content_type" := JStr(photo.contentType),
             "object_key" := JStr(photo.objectKey), "status" := JStr(photo.status),
             "upload_mode" := JStr(photo.uploadMode), "display_url" := JStr(photo.displayUrl),
             "thumbnail_url" := OptStr(photo.thumbnailUrl), "file_size_bytes" := OptNum(photo.fileSizeBytes),
             "image_width_px" := OptNum(photo.imageWidthPx), "image_height_px" := OptNum(photo.imageHeightPx),
             "metadata_source" := OptStr(photo.metadataSource)])
  }

  function AddOnJson(addOn: AddOn): Json
  {
    JObj(map["id" := JStr(addOn.id), "job_id" := JStr(addOn.jobId), "service_name" := JStr(addOn.serviceName),
             "service_description" := OptStr(addOn.serviceDescription), "quantity" := JNum(addOn.quantity),
             "unit_price_cents" := JNum(addOn.unitPriceCents), "note" := OptStr(addOn.note),
             "status" := JStr(addOn.status)])
  }

  function RouteStopJson(stop: RouteStop): Json
  {
    JObj(map["day_plan_id" := JStr(stop.dayPlanId), "crew_id" := JStr(stop.crewId),
             "service_date" := JStr(stop.serviceDate), "stop_id" := JStr(stop.stopId),
             "stop_order" := JNum(stop.stopOrder), "stop_status" := JStr(stop.stopStatus)])
  }

  function EvidenceJson(e: Evidence): Json
  {
    JObj(map["before_photos" := JNum(e.beforePhotos), "after_photos" := JNum(e.afterPhotos),
             "issue_photos" := JNum(e.issuePhotos), "total_photo_evidence" := JNum(e.totalPhotoEvidence),
             "completed_add_ons" := JNum(e.completedAddOns)])
  }

  function MetadataJson(m: Metadata): Json
  {
    JObj(map["snapshot_version" := JNum(m.snapshotVersion), "report_id" := JStr(m.reportId),
             "job_id" := JStr(m.jobId), "captured_at_epoch_seconds" := JNum(m.capturedAtEpochSeconds),
             "evidence" := EvidenceJson(m.evidence)])
  }

  /** The values of a serialized report, field by field; an absent route stop or absent metadata is
      skipped. */
  datatype ReportFields = ReportFields(
    reportId: Json, jobId: Json, reportStatus: Json, persisted: Json, readyForCustomer: Json, readinessBlockers: Json,
    checklistProgress: Json, beforePhotos: Json, afterPhotos: Json, issuePhotos: Json, pendingAddOns: Json,
    shareUrl: Json, job: Json, account: Json, photoEvidence: Json, completedAddOns: Json,
    routeStop: Option<Json>, snapshotMetadata: Option<Json>)
  {
    function ToJson(): Json
    {
      var required := map[
        "report_id" := reportId, "job_id" := jobId, "report_status" := reportStatus, "persisted" := persisted,
        "ready_for_customer" := readyForCustomer, "readiness_blockers" := readinessBlockers,
        "checklist_progress" := checklistProgress, "before_photos" := beforePhotos, "after_photos" := afterPhotos,
        "issue_photos" := issuePhotos, "pending_add_ons" := pendingAddOns, "share_url" := shareUrl,
        "job" := job, "account" := account, "photo_evidence" := photoEvidence, "completed_add_ons" := completedAddOns];
      var placed := if routeStop.Some? then required["route_stop" := routeStop.value] else required;
      JObj(if snapshotMetadata.Some? then placed["snapshot_metadata" := snapshotMetadata.value] else placed)
    }
  }

  function FieldsOf(r: Report): ReportFields
  {
    ReportFields(
      JStr(r.reportId), JStr(r.jobId), JStr(StatusText(r.reportStatus)), JBool(r.persisted), JBool(r.readyForCustomer),
      JArr(Mapped((s: string) => JStr(s), r.readinessBlockers)), JNum(r.checklistProgress), JNum(r.beforePhotos),
      JNum(r.afterPhotos), JNum(r.issuePhotos), JNum(r.pendingAddOns), OptStr(r.shareUrl), JobJson(r.job),
      AccountJson(r.account), JArr(Mapped(PhotoJson, r.photoEvidence)), JArr(Mapped(AddOnJson, r.completedAddOns)),
      if r.routeStop.Some? then Some(RouteStopJson(r.routeStop.value)) else None,
      if r.snapshotMetadata.Some? then Some(MetadataJson(r.snapshotMetadata.value)) else None)
  }

  /** `serde_json::to_string` of a report, as the value it is read back to. */
  function ReportJson(r: Report): Json
  {
    FieldsOf(r).ToJson()
  }

  // ---- the customer's view of a stored snapshot ----------------------------------------------------------

  /** `collect::<Option<Vec<_>>>()` */
  function Collect<A>(f: Json -> Option<A>, items: seq<Json>): Option<seq<A>>
  {
    if items == [] then Some([])
    else
      var head :- f(items[0]);
      var rest :- Collect(f, items[1..]);
      Some([head] + rest)
  }

  function StrAt(value: Json, key: string): Option<string>
  {
    var found :- value.Get(key);
    found.AsStr()
  }

  function U32At(value: Json, key: string): Option<u32>
  {
    var found :- value.Get(key);
    AsU32Checked(found)
  }

  function U64At(value: Json, key: string): Option<u64>
  {
    var found :- value.Get(key);
    found.AsU64()
  }

  function BoolAt(value: Json, key: string): Option<bool>
  {
    var found :- value.Get(key);
    found.AsBool()
  }

  function ArrayAt(value: Json, key: string): Option<seq<Json>>
  {
    var found :- value.Get(key);
    found.AsArray()
  }

  function CustomerChecklistItemFrom(item: Json): Option<CustomerChecklistItem>
  {
    var caption :- StrAt(item, "label");
    var completed :- BoolAt(item, "completed");
    Some(CustomerChecklistItem(caption, completed))
  }

  function CustomerPhotoFrom(photo: Json): Option<CustomerPhoto>
  {
    var thumbnail := StrAt(photo, "thumbnail_url");
    var imageUrl :- if thumbnail.Some? then thumbnail else StrAt(photo, "display_url");
    var photoType :- StrAt(photo, "photo_type");
    var fileName :- StrAt(photo, "file_name");
    Some(CustomerPhoto(photoType, fileName, imageUrl))
  }

  function CustomerRecommendationFrom(addOn: Json): Option<CustomerRecommendation>
  {
    var serviceName :- StrAt(addOn, "service_name");
    var quantity :- U32At(addOn, "quantity");
    Some(CustomerRecommendation(serviceName, StrAt(addOn, "service_description"), quantity))
  }

  /** The guards of the stored projection before any list is read. */
  function SnapshotAccepted(snapshot: Json, metadata: Json): Option<bool>
  {
    var reportId :- StrAt(snapshot, "report_id");
    var jobId :- StrAt(snapshot, "job_id");
    var status :- StrAt(snapshot, "report_status");
    var progress :- U32At(snapshot, "checklist_progress");
    var beforePhotos :- U32At(snapshot, "before_photos");
    var afterPhotos :- U32At(snapshot, "after_photos");
    var persisted :- BoolAt(snapshot, "persisted");
    var ready :- BoolAt(snapshot, "ready_for_customer");
    var version :- U64At(metadata, "snapshot_version");
    var metadataReportId :- StrAt(metadata, "report_id");
    var metadataJobId :- StrAt(metadata, "job_id");
    Some(!IsBlank(reportId) && !IsBlank(jobId) && status == "delivered" && persisted && ready
         && progress == 100 && beforePhotos != 0 && afterPhotos != 0 && version == SNAPSHOT_VERSION
         && metadataReportId == reportId && metadataJobId == jobId)
  }

  /** The evidence counts of the metadata against the counts and lists of the snapshot. */
  function EvidenceAccepted(evidence: Json, beforePhotos: u32, afterPhotos: u32, issuePhotos: u32,
                            photoCount: nat, addOnCount: nat): Option<bool>
  {
    var before :- U32At(evidence, "before_photos");
    var after :- U32At(evidence, "after_photos");
    var issue :- U32At(evidence, "issue_photos");
    var total :- U64At(evidence, "total_photo_evidence");
    var addOns :- U64At(evidence, "completed_add_ons");
    Some(before == beforePhotos && after == afterPhotos && issue == issuePhotos
         && total == photoCount && addOns == addOnCount)
  }

  function CustomerServiceFrom(job: Json): Option<CustomerService>
  {
    var checklistValues :- ArrayAt(job, "checklist");
    var checklist :- Collect(CustomerChecklistItemFrom, checklistValues);
    var customerName :- StrAt(job, "customer_name");
    var propertyAddress :- StrAt(job, "property_address");
    var scheduledDate :- StrAt(job, "scheduled_date");
    Some(CustomerService(customerName, propertyAddress, scheduledDate, checklist))
  }

  /** `customer_completion_report_snapshot_response` */
  function SnapshotResponse(snapshot: Json): Option<CustomerReport>
  {
    var status :- StrAt(snapshot, "report_status");
    var progress :- U32At(snapshot, "checklist_progress");
    var beforePhotos :- U32At(snapshot, "before_photos");
    var afterPhotos :- U32At(snapshot, "after_photos");
    var issuePhotos :- U32At(snapshot, "issue_photos");
    var metadata :- snapshot.Get("snapshot_metadata");
    var accepted :- SnapshotAccepted(snapshot, metadata);
    if !accepted then None
    else AcceptedResponse(snapshot, metadata, status, progress, beforePhotos, afterPhotos, issuePhotos)
  }

  /** The second half of the projection: the lists, and the evidence counts against them. */
  function AcceptedResponse(snapshot: Json, metadata: Json, status: string, progress: u32, beforePhotos: u32,
                            afterPhotos: u32, issuePhotos: u32): Option<CustomerReport>
  {
    var job :- snapshot.Get("job");
    var service :- CustomerServiceFrom(job);
    var photoValues :- ArrayAt(snapshot, "photo_evidence");
    var photos :- Collect(CustomerPhotoFrom, photoValues);
    var addOnValues :- ArrayAt(snapshot, "completed_add_ons");
    var recommendations :- Collect(CustomerRecommendationFrom, addOnValues);
    var evidence :- metadata.Get("evidence");
    var matching :- EvidenceAccepted(evidence, beforePhotos, afterPhotos, issuePhotos, |photos|, |recommendations|);
    if !matching then None
    else Some(CustomerReport(status, progress, beforePhotos, afterPhotos, issuePhotos, service, photos,
                             recommendations, U64At(metadata, "captured_at_epoch_seconds")))
  }

  // ---- the two views agree ---------------------------------------------------------------------------------

  lemma {:induction false} CollectMapped<A(!new), B>(parse: Json -> Option<B>, write: A -> Json, view: A -> B,
                                                          items: seq<A>)
    requires forall a :: parse(write(a)) == Some(view(a))
    ensures Collect(parse, Mapped(write, items)) == Some(Mapped(view, items))
  {
    if items != [] {
      CollectMapped(parse, write, view, items[1..]);
      assert Mapped(write, items)[1..] == Mapped(write, items[1..]);
      assert Mapped(view, items) == [view(items[0])] + Mapped(view, items[1..]);
    }
  }

  lemma ChecklistItemRoundTrip(item: ChecklistItem)
    ensures CustomerChecklistItemFrom(ChecklistItemJson(item)) == Some(CustomerChecklistItemOf(item))
  {
  }

  lemma PhotoRoundTrip(photo: Photo)
    ensures CustomerPhotoFrom(PhotoJson(photo)) == Some(CustomerPhotoOf(photo))
  {
    var j := PhotoJson(photo);
    assert j.Get("thumbnail_url") == Some(OptStr(photo.thumbnailUrl));
    assert j.Get("display_url") == Some(JStr(photo.displayUrl));
    assert j.Get("photo_type") == Some(JStr(photo.photoType));
    assert j.Get("file_name") == Some(JStr(photo.fileName));
  }

  lemma AddOnRoundTrip(addOn: AddOn)
    ensures CustomerRecommendationFrom(AddOnJson(addOn)) == Some(CustomerRecommendationOf(addOn))
  {
  }

  lemma JobRoundTrip(job: JobDetail)
    ensures CustomerServiceFrom(JobJson(job))
         == Some(CustomerService(job.customerName, job.propertyAddress, job.scheduledDate,
                                 Mapped(CustomerChecklistItemOf, job.checklist)))
  {
    var j := JobJson(job);
    assert j.Get("checklist") == Some(JArr(Mapped(ChecklistItemJson, job.checklist)));
    assert j.Get("customer_name") == Some(JStr(job.customerName));
    assert j.Get("property_address") == Some(JStr(job.propertyAddress));
    assert j.Get("scheduled_date") == Some(JStr(job.scheduledDate));
    forall item ensures CustomerChecklistItemFrom(ChecklistItemJson(item)) == Some(CustomerChecklistItemOf(item)) {
      ChecklistItemRoundTrip(item);
    }
    CollectMapped(CustomerChecklistItemFrom, ChecklistItemJson, CustomerChecklistItemOf, job.checklist);
  }

  lemma PhotosRoundTrip(photos: seq<Photo>)
    ensures Collect(CustomerPhotoFrom, Mapped(PhotoJson, photos)) == Some(Mapped(CustomerPhotoOf, photos))
  {
    forall photo ensures CustomerPhotoFrom(PhotoJson(photo)) == Some(CustomerPhotoOf(photo)) {
      PhotoRoundTrip(photo);
    }
    CollectMapped(CustomerPhotoFrom, PhotoJson, CustomerPhotoOf, photos);
  }

  lemma AddOnsRoundTrip(addOns: seq<AddOn>)
    ensures Collect(CustomerRecommendationFrom, Mapped(AddOnJson, addOns))
        == Some(Mapped(CustomerRecommendationOf, addOns))
  {
    forall addOn ensures CustomerRecommendationFrom(AddOnJson(addOn)) == Some(CustomerRecommendationOf(addOn)) {
      AddOnRoundTrip(addOn);
    }
    CollectMapped(CustomerRecommendationFrom, AddOnJson, CustomerRecommendationOf, addOns);
  }

  lemma IdLookups(f: ReportFields)
    ensures f.ToJson().Get("report_id") == Some(f.reportId) && f.ToJson().Get("job_id") == Some(f.jobId)
    ensures f.ToJson().Get("report_status") == Some(f.reportStatus)
  {
  }

  lemma FlagLookups(f: ReportFields)
    ensures f.ToJson().Get("persisted") == Some(f.persisted)
    ensures f.ToJson().Get("ready_for_customer") == Some(f.readyForCustomer)
  {
  }

  lemma CountLookups(f: ReportFields)
    ensures f.ToJson().Get("checklist_progress") == Some(f.checklistProgress)
    ensures f.ToJson().Get("before_photos") == Some(f.beforePhotos)
    ensures f.ToJson().Get("after_photos") == Some(f.afterPhotos)
    ensures f.ToJson().Get("issue_photos") == Some(f.issuePhotos)
  {
  }

  lemma PartLookups(f: ReportFields)
    ensures f.ToJson().Get("job") == Some(f.job)
    ensures f.ToJson().Get("photo_evidence") == Some(f.photoEvidence)
    ensures f.ToJson().Get("completed_add_ons") == Some(f.completedAddOns)
  {
  }

  lemma MetadataLookup(f: ReportFields)
    ensures f.ToJson().Get("snapshot_metadata") == f.snapshotMetadata
  {
  }

  lemma ReportIsStored(r: Report)
    ensures FlagsStored(ReportJson(r), r) && CountsStored(ReportJson(r), r) && PartsStored(ReportJson(r), r)
    ensures ReportJson(r).Get("snapshot_metadata")
         == (if r.snapshotMetadata.Some? then Some(MetadataJson(r.snapshotMetadata.value)) else None)
  {
    IdLookups(FieldsOf(r));
    FlagLookups(FieldsOf(r));
    CountLookups(FieldsOf(r));
    PartLookups(FieldsOf(r));
    MetadataLookup(FieldsOf(r));
  }

  lemma MetadataFields(m: Metadata)
    ensures MetadataStored(MetadataJson(m), m)
  {
  }

  lemma EvidenceRoundTrip(e: Evidence, beforePhotos: u32, afterPhotos: u32, issuePhotos: u32, photoCount: nat,
                          addOnCount: nat)
    ensures EvidenceAccepted(EvidenceJson(e), beforePhotos, afterPhotos, issuePhotos, photoCount, addOnCount)
         == Some(e.beforePhotos == beforePhotos && e.afterPhotos == afterPhotos && e.issuePhotos == issuePhotos
                 && e.totalPhotoEvidence == photoCount && e.completedAddOns == addOnCount)
  {
  }

  /** The delivered status is the only one with its text. */
  lemma DeliveredText(status: Status)
    ensures StatusText(status) == "delivered" <==> status == Delivered
  {
  }

  predicate FlagsStored(j: Json, r: Report)
  {
    && j.Get("report_id") == Some(JStr(r.reportId))
    && j.Get("job_id") == Some(JStr(r.jobId))
    && j.Get("report_status") == Some(JStr(StatusText(r.reportStatus)))
    && j.Get("persisted") == Some(JBool(r.persisted))
    && j.Get("ready_for_customer") == Some(JBool(r.readyForCustomer))
  }

  predicate CountsStored(j: Json, r: Report)
  {
    && j.Get("checklist_progress") == Some(JNum(r.checklistProgress))
    && j.Get("before_photos") == Some(JNum(r.beforePhotos))
    && j.Get("after_photos") == Some(JNum(r.afterPhotos))
    && j.Get("issue_photos") == Some(JNum(r.issuePhotos))
  }

  predicate MetadataStored(j: Json, m: Metadata)
  {
    && j.Get("snapshot_version") == Some(JNum(m.snapshotVersion))
    && j.Get("report_id") == Some(JStr(m.reportId))
    && j.Get("job_id") == Some(JStr(m.jobId))
    && j.Get("captured_at_epoch_seconds") == Some(JNum(m.capturedAtEpochSeconds))
    && j.Get("evidence") == Some(EvidenceJson(m.evidence))
  }

  lemma AcceptedFields(j: Json, mj: Json, r: Report, m: Metadata)
    requires FlagsStored(j, r) && CountsStored(j, r) && MetadataStored(mj, m)
    ensures SnapshotAccepted(j, mj)
         == Some(Acceptable(r, m))
  {
    DeliveredText(r.reportStatus);
  }

  predicate Acceptable(r: Report, m: Metadata)
  {
    !IsBlank(r.reportId) && !IsBlank(r.jobId) && r.reportStatus == Delivered && r.persisted
    && r.readyForCustomer && r.checklistProgress == 100 && r.beforePhotos != 0 && r.afterPhotos != 0
    && m.snapshotVersion == 1 && m.reportId == r.reportId && m.jobId == r.jobId
  }

  predicate PartsStored(j: Json, r: Report)
  {
    && j.Get("job") == Some(JobJson(r.job))
    && j.Get("photo_evidence") == Some(JArr(Mapped(PhotoJson, r.photoEvidence)))
    && j.Get("completed_add_ons") == Some(JArr(Mapped(AddOnJson, r.completedAddOns)))
  }

  predicate EvidenceMatches(e: Evidence, r: Report)
  {
    && e.beforePhotos == r.beforePhotos && e.afterPhotos == r.afterPhotos && e.issuePhotos == r.issuePhotos
    && e.totalPhotoEvidence == |r.photoEvidence| && e.completedAddOns == |r.completedAddOns|
  }

  lemma AcceptedResponseOfParts(j: Json, mj: Json, r: Report, m: Metadata)
    requires PartsStored(j, r) && MetadataStored(mj, m) && r.snapshotMetadata == Some(m)
    ensures AcceptedResponse(j, mj, StatusText(r.reportStatus), r.checklistProgress, r.beforePhotos, r.afterPhotos,
                             r.issuePhotos)
         == if EvidenceMatches(m.evidence, r) then Some(CustomerResponse(r)) else None
  {
    JobRoundTrip(r.job);
    PhotosRoundTrip(r.photoEvidence);
    AddOnsRoundTrip(r.completedAddOns);
    EvidenceRoundTrip(m.evidence, r.beforePhotos, r.afterPhotos, r.issuePhotos, |r.photoEvidence|, |r.completedAddOns|);
  }

  lemma ResponseInTwoHalves(j: Json, mj: Json, status: string, progress: u32, beforePhotos: u32, afterPhotos: u32,
                            issuePhotos: u32, accepted: bool)
    requires StrAt(j, "report_status") == Some(status) && U32At(j, "checklist_progress") == Some(progress)
    requires U32At(j, "before_photos") == Some(beforePhotos) && U32At(j, "after_photos") == Some(afterPhotos)
    requires U32At(j, "issue_photos") == Some(issuePhotos) && j.Get("snapshot_metadata") == Some(mj)
    requires SnapshotAccepted(j, mj) == Some(accepted)
    ensures SnapshotResponse(j)
         == if accepted then AcceptedResponse(j, mj, status, progress, beforePhotos, afterPhotos, issuePhotos) else None
  {
  }

  /** The stored projection of any JSON value that holds a report's fields. */
  lemma ResponseOfStoredParts(j: Json, mj: Json, r: Report, m: Metadata)
    requires FlagsStored(j, r) && CountsStored(j, r) && PartsStored(j, r) && MetadataStored(mj, m)
    requires j.Get("snapshot_metadata") == Some(mj) && r.snapshotMetadata == Some(m)
    ensures SnapshotResponse(j)
         == if Acceptable(r, m) && EvidenceMatches(m.evidence, r) then Some(CustomerResponse(r)) else None
  {
    AcceptedFields(j, mj, r, m);
    ResponseInTwoHalves(j, mj, StatusText(r.reportStatus), r.checklistProgress, r.beforePhotos, r.afterPhotos,
                        r.issuePhotos, Acceptable(r, m));
    AcceptedResponseOfParts(j, mj, r, m);
  }

  lemma ValidIffAcceptable(r: Report, m: Metadata)
    requires r.snapshotMetadata == Some(m)
    ensures Acceptable(r, m) && EvidenceMatches(m.evidence, r)
       <==> IsValidDeliveredSnapshot(r.reportId, r.jobId, r) && StorableIds(r)
  {
  }

  /** What the stored projection additionally needs of a snapshot the typed check accepts. */
  predicate StorableIds(r: Report)
  {
    !IsBlank(r.reportId) && !IsBlank(r.jobId)
    && |r.photoEvidence| < 0x1_0000_0000 && |r.completedAddOns| < 0x1_0000_0000
  }

  /** For every report: its stored form is shown to the customer exactly when it is a valid
      delivered snapshot under its own ids, with ids that are not blank and lists whose lengths
      fit 32 bits; and then the customer sees the typed view. */
  lemma StoredViewRefinesTypedView(r: Report)
    ensures SnapshotResponse(ReportJson(r)).Some?
        <==> IsValidDeliveredSnapshot(r.reportId, r.jobId, r) && StorableIds(r)
    ensures SnapshotResponse(ReportJson(r)).Some? ==> SnapshotResponse(ReportJson(r)).value == CustomerResponse(r)
  {
    ReportIsStored(r);
    if r.snapshotMetadata.Some? {
      var m := r.snapshotMetadata.value;
      MetadataFields(m);
      ResponseOfStoredParts(ReportJson(r), MetadataJson(m), r, m);
      ValidIffAcceptable(r, m);
    }
  }
}
