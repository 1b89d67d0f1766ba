/**
 What a job application is, and what the endpoints accept:
 backend/internal/domain/application.go and application_request.go.

 Times are the whole milliseconds BSON stores, in UTC. The list of uploaded resumes is left out:
 it is created empty and no operation here touches it.
 */
module Domain {
  import opened Wrappers

  datatype Compensation = Compensation(baseSalary: int, bonus: int, equity: string, benefits: seq<string>)

  datatype Application = Application(
    id: nat,
    owner: nat,
    company: string,
    position: string,
    status: string,
    location: seq<string>,
    link: string,
    description: string,
    tags: seq<string>,
    notes: string,
    compensation: Option<Compensation>,
    appliedAt: int,
    followUp: Option<int>,
    createdAt: int,
    updatedAt: int)

  const STATUSES: set<string> := {"applied", "phone_screen", "onsite", "offer", "rejected", "withdrawn"}

  datatype CreateRequest = CreateRequest(
    company: string,
    position: string,
    status: string,
    location: seq<string>,
    link: string,
    description: string,
    tags: seq<string>,
    notes: string,
    compensation: Option<Compensation>,
    appliedAt: Option<int>,
    followUp: Option<int>)

  /** A raw JSON field that may be null: left out, null, not of the right shape, or a value. */
  datatype Nullable<+T> = Absent | Null | Malformed | Given(value: T)

  /** The body of a PATCH; None and Absent are fields the client did not send. */
  datatype Patch = Patch(
    company: Option<string>,
    position: Option<string>,
    status: Option<string>,
    location: Option<seq<string>>,
    link: Option<string>,
    description: Option<string>,
    tags: Option<seq<string>>,
    notes: Option<string>,
    appliedAt: Option<int>,
    followUp: Nullable<int>,
    compensation: Nullable<Compensation>)

  datatype Query = Query(status: string, tag: string, search: string, page: int, size: int)
}
