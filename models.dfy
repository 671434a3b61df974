/** The two record types of the tracker: users and funding requests. */
module Models {
  import opened Wrappers

  /** Lifecycle state of a request. The loader keeps whatever status string the
      file holds, so a status outside the four known names is `Unknown`. */
  datatype Status = Submitted | Approved | Rejected | Funded | Unknown(name: string)

  /** Role of a user. Registration only admits the three known roles; a user
      loaded from a file may carry any other role string. */
  datatype Role = Student | Admin | Donor | OtherRole(name: string)

  /** The registration form's role string, already lower-cased. */
  function ParseRole(s: string): (r: Option<Role>)
    ensures r.Some? <==> s in {"student", "admin", "donor"}
    ensures r == Some(Student) <==> s == "student"
    ensures r == Some(Admin) <==> s == "admin"
    ensures r == Some(Donor) <==> s == "donor"
    ensures r.Some? ==> !r.value.OtherRole?
  {
    if s == "student" then Some(Student)
    else if s == "admin" then Some(Admin)
    else if s == "donor" then Some(Donor)
    else None
  }

  /** A loaded role string that names one of the three roles is read as that
      role: `OtherRole` only ever carries some other name. */
  predicate CanonicalRole(r: Role) {
    r.OtherRole? ==> ParseRole(r.name).None?
  }

  /** Likewise for a loaded status: `Unknown` only carries a name outside the
      four statuses. */
  predicate CanonicalStatus(s: Status) {
    s.Unknown? ==> s.name !in {"submitted", "approved", "rejected", "funded"}
  }

  /** A registered user; never changed after creation. */
  datatype User = User(id: string, name: string, role: Role)

  /** A funding request. Every index of the engine holds a reference to the
      same object, so a status change is seen through all of them; the other
      fields never change after creation. */
  class FundingRequest {
    const id: string
    const studentId: string
    const amount: int
    const urgency: int
    var status: Status

    constructor (id: string, studentId: string, amount: int, urgency: int, status: Status)
      ensures this.id == id && this.studentId == studentId
      ensures this.amount == amount && this.urgency == urgency
      ensures this.status == status
    {
      this.id := id;
      this.studentId := studentId;
      this.amount := amount;
      this.urgency := urgency;
      this.status := status;
    }
  }

  /** The status transitions the program makes, among the four statuses its
      request record names: submitted to approved or rejected, approved to
      funded; rejected and funded are terminal. */
  predicate Step(from: Status, to: Status) {
    from == to
    || (from == Submitted && (to == Approved || to == Rejected))
    || (from == Approved && to == Funded)
  }

  /** The ids of a sequence of requests, in order. */
  function Ids(rs: seq<FundingRequest>): (ids: seq<string>)
    ensures |ids| == |rs|
    ensures forall i :: 0 <= i < |rs| ==> ids[i] == rs[i].id
  {
    if rs == [] then [] else Ids(rs[..|rs| - 1]) + [rs[|rs| - 1].id]
  }

  /** No two entries of `s` are equal. */
  predicate Distinct<T(==)>(s: seq<T>) {
    forall i, j :: 0 <= i < j < |s| ==> s[i] != s[j]
  }

  /** A value at two positions is counted at least twice. */
  lemma RepeatCounted<T>(s: seq<T>, i: int, j: int)
    requires 0 <= i < j < |s|
    ensures s[i] == s[j] ==> multiset(s)[s[i]] >= 2
  {
    if s[i] == s[j] {
      assert s == s[..j] + s[j..];
      assert s[..j][i] == s[i];
      assert s[j..][0] == s[j];
    }
  }

  /** A sequence is free of repeats exactly when every entry is counted
      once by its multiset. */
  lemma {:induction false} DistinctCounts<T>(s: seq<T>)
    ensures Distinct(s) <==> forall x :: x in s ==> multiset(s)[x] <= 1
  {
    if Distinct(s) && s != [] {
      var init, last := s[..|s| - 1], s[|s| - 1];
      assert s == init + [last];
      assert Distinct(init) by {
        forall i, j | 0 <= i < j < |init| ensures init[i] != init[j] {
          assert s[i] == init[i] && s[j] == init[j];
        }
      }
      DistinctCounts(init);
      forall i | 0 <= i < |init| ensures init[i] != last {
        assert s[i] == init[i];
      }
      assert last !in init;
    }
    if forall x :: x in s ==> multiset(s)[x] <= 1 {
      forall i, j | 0 <= i < j < |s| ensures s[i] != s[j] {
        RepeatCounted(s, i, j);
      }
    }
  }

}
