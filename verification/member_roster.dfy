/** The member roster page (`members.php`): who may see it, which members
    it lists, the page count, the navigation bar and each row's status
    badge. */
module MemberRoster {
  import opened Common
  import opened Store
  import opened Auth
  import Members
  import opened Pagination

  /** The badge colour of `membership_status`. */
  datatype StatusBadge = Success | Danger | WarningDark

  /** One table row: the member and the colour of the status badge (the
      view, edit and new-loan links are on every row). */
  datatype RosterRow = RosterRow(member: Member, badge: StatusBadge)

  /** `RedirectIndex` for anyone but a librarian; `StatementFailed` when the
      paged `SELECT` is refused (a page number below 1); otherwise the
      heading's row count, the page count, the rows (none: the "No results
      found!" or "No members available!" notice) and the bar. */
  datatype RosterPage =
    | RedirectIndex
    | StatementFailed
    | RosterView(totalRows: nat, totalPages: nat, rows: seq<RosterRow>, nav: seq<PageLink>)

  function BadgeOf(st: MembershipStatus): StatusBadge {
    match st
    case Active => Success
    case Expired => Danger
    case Suspended => WarningDark
  }

  function RowOf(m: Member): RosterRow {
    RosterRow(m, BadgeOf(m.membershipStatus))
  }

  /** The members the request selects and `$total_rows`. */
  function RosterSelection(members: map<int, Member>, req: ListingRequest): Option<(seq<Member>, nat)> {
    Selection(req, Members.Search(members, req.search), Members.ReadAll(members, req.page, RecordsPerPage), Members.CountAll(members))
  }

  /** One request to `members.php`. */
  function RosterOf(members: map<int, Member>, s: Session, req: ListingRequest): RosterPage {
    if !IsLibrarian(s) then RedirectIndex
    else match RosterSelection(members, req)
      case None => StatementFailed
      case Some((listed, totalRows)) =>
        var totalPages := TotalPages(totalRows, RecordsPerPage);
        RosterView(totalRows, totalPages, MapSeq(listed, RowOf), NavFor(req, |listed|, totalPages))
  }

  // ---------------------------------------------------------------------------
  // Properties
  // ---------------------------------------------------------------------------

  /** Only librarians see the roster; a search term lists every matching
      member and counts them, otherwise the page lists the requested ten
      members in last-name order and counts them all, and a page number below
      1 makes the statement fail. */
  lemma RosterSelectsBySearch(members: map<int, Member>, s: Session, req: ListingRequest)
    ensures RosterOf(members, s, req).RedirectIndex? <==> !IsLibrarian(s)
    ensures RosterOf(members, s, req).StatementFailed? <==> IsLibrarian(s) && Blank(req.search) && req.page < 1
    ensures var p := RosterOf(members, s, req);
      p.RosterView? ==>
        var listed := if Blank(req.search) then Members.ReadAll(members, req.page, RecordsPerPage).value else Members.Search(members, req.search);
        && |p.rows| == |listed|
        && (forall i :: 0 <= i < |p.rows| ==> p.rows[i].member == listed[i])
        && p.totalRows == (if Blank(req.search) then |members| else |listed|)
        && p.totalPages == TotalPages(p.totalRows, RecordsPerPage)
  {
    Members.ReadAllIsLastNameOrderedPage(members, req.page, RecordsPerPage);
  }

  /** Every row is a stored member, with the green badge for an active
      membership, the red one for an expired one and the yellow one for a
      suspended one. */
  lemma RosterRowsAreStoredMembers(members: map<int, Member>, s: Session, req: ListingRequest)
    ensures var p := RosterOf(members, s, req);
      p.RosterView? ==> forall r :: r in p.rows ==>
        && r.member in members.Values
        && (r.badge == Success <==> r.member.membershipStatus == Active)
        && (r.badge == Danger <==> r.member.membershipStatus == Expired)
        && (r.badge == WarningDark <==> r.member.membershipStatus == Suspended)
  {
    var p := RosterOf(members, s, req);
    if p.RosterView? {
      var listed := RosterSelection(members, req).value.0;
      assert forall m :: m in listed ==> m in members.Values by {
        if Blank(req.search) {
          Members.ReadAllIsLastNameOrderedPage(members, req.page, RecordsPerPage);
        } else {
          Members.SearchIsExact(members, req.search);
        }
      }
      RowsOfStoredMembers(members, listed, p.rows);
    }
  }

  /** The rows drawn from stored members are stored members, each with the
      badge of its status. */
  lemma RowsOfStoredMembers(members: map<int, Member>, listed: seq<Member>, rows: seq<RosterRow>)
    requires rows == MapSeq(listed, RowOf)
    requires forall m :: m in listed ==> m in members.Values
    ensures forall r :: r in rows ==>
      && r.member in members.Values
      && (r.badge == Success <==> r.member.membershipStatus == Active)
      && (r.badge == Danger <==> r.member.membershipStatus == Expired)
      && (r.badge == WarningDark <==> r.member.membershipStatus == Suspended)
  {
    forall r | r in rows ensures r.member in members.Values && r == RowOf(r.member) {
      var i :| 0 <= i < |rows| && rows[i] == r;
      assert listed[i] in listed;
    }
  }

  /** The bar appears exactly when there is no search term, the roster
      takes more than one page and the requested page is one of them. */
  lemma RosterNavIsGated(members: map<int, Member>, s: Session, req: ListingRequest)
    ensures var p := RosterOf(members, s, req);
      p.RosterView? ==>
        && (p.nav != [] <==> Blank(req.search) && p.totalPages > 1 && 1 <= req.page <= p.totalPages)
        && (p.nav != [] ==> p.nav == Nav(req.page, p.totalPages))
  {
    var p := RosterOf(members, s, req);
    if p.RosterView? && Blank(req.search) {
      assert |Members.Roster(members)| == |members|;
      NavForListing(Members.Roster(members), req, RecordsPerPage);
    }
  }

  /** Following any link of the bar shows a page that lists members. */
  lemma RosterNavLeadsToMembers(members: map<int, Member>, s: Session, req: ListingRequest, l: PageLink)
    requires RosterOf(members, s, req).RosterView?
    requires l in RosterOf(members, s, req).nav
    ensures var next := RosterOf(members, s, ListingRequest(TargetOf(l), req.search));
      next.RosterView? && next.rows != []
  {
    assert |Members.Roster(members)| == |members|;
    NavTargetsHaveRows(Members.Roster(members), req.page, RecordsPerPage);
  }
}
