/** Workers' availability records and the manager's fill-range setting
    (availability/models.py). */
module AvailabilityModels {
  import opened Base

  /** One `WorkAvailability` row: both times are nullable and `available`
      defaults to False. */
  datatype Availability = Availability(
    id: nat,
    employee: nat,
    date: Day,
    start: Option<Time>,
    end: Option<Time>,
    available: bool)

  /** A row created from its employee and date alone. */
  function NewAvailability(id: nat, employee: nat, date: Day): (a: Availability)
    ensures a.id == id && a.employee == employee && a.date == date
    ensures !a.available && a.start == None && a.end == None
  {
    Availability(id, employee, date, None, None, false)
  }

  function AvailabilityIds(rows: seq<Availability>): (ids: seq<nat>)
    ensures |ids| == |rows|
    ensures forall i :: 0 <= i < |rows| ==> ids[i] == rows[i].id
  {
    seq(|rows|, i requires 0 <= i < |rows| => rows[i].id)
  }

  /** `FillRangeSetting`: the date range a manager opens for filling in. */
  datatype FillRangeSetting = FillRangeSetting(id: nat, startDate: Day, endDate: Day)
}
