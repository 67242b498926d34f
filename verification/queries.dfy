/**
  Store queries that several screens issue in the same shape, and the column
  orderings they ask the store for.
 */
module Queries {
  import opened Database
  import opened Seqs

  /**
    Ascending string order, compared code point by code point; a proper prefix
    comes first.
   */
  predicate NameLe(a: string, b: string)
    decreases |a|
  {
    |a| == 0 || (|b| > 0 && (a[0] < b[0] || (a[0] == b[0] && NameLe(a[1..], b[1..]))))
  }

  lemma {:induction false} NameLeTotal(a: string, b: string)
    ensures NameLe(a, b) || NameLe(b, a)
    decreases |a|
  {
    if |a| > 0 && |b| > 0 && a[0] == b[0] {
      NameLeTotal(a[1..], b[1..]);
    }
  }

  lemma {:induction false} NameLeTransitive(a: string, b: string, c: string)
    requires NameLe(a, b) && NameLe(b, c)
    ensures NameLe(a, c)
    decreases |a|
  {
    if |a| > 0 && a[0] == b[0] && b[0] == c[0] {
      NameLeTransitive(a[1..], b[1..], c[1..]);
    }
  }

  /** Users in ascending order of full name. */
  const ByFullName: (User, User) -> bool := (a: User, b: User) => NameLe(a.fullName, b.fullName)

  /** Quarters with the later start date first. */
  const ByStartDesc: (Quarter, Quarter) -> bool := (a: Quarter, b: Quarter) => a.startDay >= b.startDay

  lemma ByFullNameIsOrder()
    ensures Total(ByFullName) && Transitive(ByFullName)
  {
    forall a: User, b: User
      ensures ByFullName(a, b) || ByFullName(b, a)
    {
      NameLeTotal(a.fullName, b.fullName);
    }
    forall a: User, b: User, c: User | ByFullName(a, b) && ByFullName(b, c)
      ensures ByFullName(a, c)
    {
      NameLeTransitive(a.fullName, b.fullName, c.fullName);
    }
  }

  /** The given users ordered by full name, as the store returns them. */
  function UsersByName(users: seq<User>): (r: seq<User>)
    ensures multiset(r) == multiset(users)
    ensures SortedBy(r, ByFullName)
  {
    ByFullNameIsOrder();
    SortSorted(users, ByFullName);
    Sort(users, ByFullName)
  }

  /** The given quarters with the latest start date first, as the store returns them. */
  function NewestFirst(quarters: seq<Quarter>): (r: seq<Quarter>)
    ensures multiset(r) == multiset(quarters)
    ensures SortedBy(r, ByStartDesc)
  {
    SortSorted(quarters, ByStartDesc);
    Sort(quarters, ByStartDesc)
  }

  /** The first of a list ordered latest start first has the latest start. */
  lemma NewestFirstHead(r: seq<Quarter>)
    requires SortedBy(r, ByStartDesc) && |r| > 0
    ensures forall q :: q in r ==> r[0].startDay >= q.startDay
  {
    forall q | q in r
      ensures r[0].startDay >= q.startDay
    {
      var i :| 0 <= i < |r| && r[i] == q;
      if i > 0 {
        assert ByStartDesc(r[0], r[i]);
      }
    }
  }

  /**
    The quarters query the roster picker and the student editor share: every
    quarter whose deletion stamp is null, latest start first.
   */
  function ActiveQuarters(quarters: seq<Quarter>): (r: seq<Quarter>)
    ensures forall q :: q in r <==> q in quarters && q.deletedAt.None?
    ensures forall q :: multiset(r)[q] == if q.deletedAt.None? then multiset(quarters)[q] else 0
    ensures SortedBy(r, ByStartDesc)
    ensures |r| > 0 ==> forall q :: q in quarters && q.deletedAt.None? ==> r[0].startDay >= q.startDay
  {
    var kept := Filter(quarters, (q: Quarter) => q.deletedAt.None?);
    var r := NewestFirst(kept);
    SameMembers(r, kept);
    FilterCount(quarters, (q: Quarter) => q.deletedAt.None?);
    if |r| > 0 then NewestFirstHead(r); r else r
  }

  /** The active-quarters query returns some row exactly when some quarter is not deleted. */
  lemma ActiveQuartersNonEmpty(quarters: seq<Quarter>)
    ensures |ActiveQuarters(quarters)| > 0 <==> exists q :: q in quarters && q.deletedAt.None?
  {
    var r := ActiveQuarters(quarters);
    if |r| > 0 {
      assert r[0] in r;
    }
  }

  /** The enrollments of one user; the query sets no order, and the model keeps the table's. */
  function EnrollmentsOf(enrollments: seq<Enrollment>, user: Id): (r: seq<Enrollment>)
    ensures forall e :: e in r <==> e in enrollments && e.userId == user
  {
    Filter(enrollments, (e: Enrollment) => e.userId == user)
  }

  /** The user id of every enrollment in `quarter`, one id per enrollment row. */
  function EnrolledUserIds(enrollments: seq<Enrollment>, quarter: Id): (ids: seq<Id>)
    ensures |ids| <= |enrollments|
    ensures forall u :: u in ids <==> Enrollment(u, quarter) in enrollments
  {
    if |enrollments| == 0 then []
    else
      var rest := EnrolledUserIds(enrollments[1..], quarter);
      assert enrollments == [enrollments[0]] + enrollments[1..];
      if enrollments[0].quarterId == quarter then [enrollments[0].userId] + rest else rest
  }
}
