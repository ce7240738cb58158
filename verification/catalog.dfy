/** The fixed service and staff catalogs of the new-booking form, the
    lookups by id the summary panel uses, and the staff list narrowed to the
    chosen service. */
module Catalog {
  import opened Wrappers
  import opened Seqs
  import opened Text

  datatype Service = Service(id: int, name: string, duration: nat, price: nat)

  datatype Staff = Staff(id: int, name: string, specialties: seq<int>, avatar: string)

  const Services: seq<Service> := [
    Service(1, "Haircut & Styling", 60, 80),
    Service(2, "Massage Therapy", 90, 120),
    Service(3, "Dental Checkup", 45, 150),
    Service(4, "Car Maintenance", 120, 200),
    Service(5, "Yoga Class", 60, 40)
  ]

  const StaffMembers: seq<Staff> := [
    Staff(1, "John Davis", [1], "JD"),
    Staff(2, "Sarah Wilson", [2], "SW"),
    Staff(3, "Dr. Robert Brown", [3], "RB"),
    Staff(4, "Tony Garcia", [4], "TG"),
    Staff(5, "Maya Patel", [5], "MP")
  ]

  /** The lookups are called as `getServiceById(parseInt(field))`, and the
      function applies `parseInt` once more to the number it receives, which
      JavaScript first turns back into text. That second reading gives back
      the same integer, and `NaN` stays `NaN`. */
  function Reparse(id: Option<int>): (r: Option<int>)
    ensures r == id
  {
    match id
    case None => None
    case Some(i) =>
      ParseAutoToDecimal(i);
      ParseIntAuto(IntToDecimal(i))
  }

  /** `services.find(service => service.id === parseInt(id))`. */
  function ServiceById(id: Option<int>): (r: Option<Service>)
    ensures r.Some? <==> id.Some? && exists i :: 0 <= i < |Services| && Services[i].id == id.value
    ensures r.Some? ==> r.value in Services && r.value.id == id.value
  {
    var key := Reparse(id);
    Find(Services, (s: Service) => key == Some(s.id))
  }

  /** `staffMembers.find(staff => staff.id === parseInt(id))`. */
  function StaffById(id: Option<int>): (r: Option<Staff>)
    ensures r.Some? <==> id.Some? && exists i :: 0 <= i < |StaffMembers| && StaffMembers[i].id == id.value
    ensures r.Some? ==> r.value in StaffMembers && r.value.id == id.value
  {
    var key := Reparse(id);
    Find(StaffMembers, (m: Staff) => key == Some(m.id))
  }

  /** No two services share an id, and no two staff members do. */
  lemma CatalogIdsUnique()
    ensures forall i, j :: 0 <= i < j < |Services| ==> Services[i].id != Services[j].id
    ensures forall i, j :: 0 <= i < j < |StaffMembers| ==> StaffMembers[i].id != StaffMembers[j].id
  {
  }

  /** Looking a service up by its own id finds exactly that service, also when
      the id arrives as the text of a `<select>` option. */
  lemma ServiceLookupFinds(x: Service)
    requires x in Services
    ensures ServiceById(Some(x.id)) == Some(x)
    ensures ServiceById(ParseIntAuto(IntToDecimal(x.id))) == Some(x)
  {
    CatalogIdsUnique();
    ParseAutoToDecimal(x.id);
  }

  /** Looking a staff member up by their own id finds exactly that member,
      also when the id arrives as the text of a `<select>` option. */
  lemma StaffLookupFinds(x: Staff)
    requires x in StaffMembers
    ensures StaffById(Some(x.id)) == Some(x)
    ensures StaffById(ParseIntAuto(IntToDecimal(x.id))) == Some(x)
  {
    CatalogIdsUnique();
    ParseAutoToDecimal(x.id);
  }

  /** Whether a staff member lists the chosen service among their
      specialties; `includes(NaN)` is false for a list of numbers. */
  predicate Offers(m: Staff, service: Option<int>) {
    service.Some? && service.value in m.specialties
  }

  /** `filteredStaff`: everyone while no service is chosen, otherwise the
      members whose specialties include the chosen service, in catalog order. */
  function FilteredStaff(service: string): (r: seq<Staff>)
    ensures IsSubsequence(r, StaffMembers)
    ensures service == "" ==> r == StaffMembers
  {
    if service == "" then
      SubsequenceRefl(StaffMembers);
      StaffMembers
    else
      var key := ParseIntAuto(service);
      Filter(StaffMembers, (m: Staff) => Offers(m, key))
  }

  /** With a service chosen, a member is listed exactly when they offer it,
      and each listed member appears as often as in the catalog. */
  lemma FilteredStaffExact(service: string, m: Staff)
    requires service != ""
    ensures m in FilteredStaff(service) <==> m in StaffMembers && Offers(m, ParseIntAuto(service))
    ensures multiset(FilteredStaff(service))[m] == if Offers(m, ParseIntAuto(service)) then multiset(StaffMembers)[m] else 0
  {
    var key := ParseIntAuto(service);
    FilterMembership(StaffMembers, (x: Staff) => Offers(x, key), m);
  }

  /** A chosen service that is not a number leaves nobody to pick. */
  lemma UnreadableServiceHasNoStaff(service: string)
    requires service != "" && ParseIntAuto(service).None?
    ensures FilteredStaff(service) == []
  {
  }

  /** A service field holding "0x2" is read in base 16 as service 2, so
      Sarah Wilson is listed. */
  lemma HexServiceTextListsStaff()
    ensures StaffMembers[1] in FilteredStaff("0x2")
  {
    HexPrefixExample();
    FilteredStaffExact("0x2", StaffMembers[1]);
  }
}
