/** Composite keys of the single-table layout. Every key is a tag followed
    by one or more ids, joined with '#'. */
module Keys {
  import opened Js

  /** `${tag}${id}` */
  function Tagged(tag: string, id: string): string
  {
    tag + id
  }

  /** An id that cannot be confused with a separator. */
  predicate NoHash(id: string)
  {
    '#' !in id
  }

  /** The id is recovered from a tagged key by dropping the tag, so two keys
      with the same tag are equal exactly when their ids are. */
  lemma {:induction false} TaggedRecover(tag: string, id: string)
    ensures StartsWith(Tagged(tag, id), tag)
    ensures Tagged(tag, id)[|tag|..] == id
  {
    assert (tag + id)[..|tag|] == tag;
  }

  lemma {:induction false} TaggedInjective(tag: string, a: string, b: string)
    ensures Tagged(tag, a) == Tagged(tag, b) <==> a == b
  {
    TaggedRecover(tag, a);
    TaggedRecover(tag, b);
  }

  // Keys written by src/lib/database.ts

  function UserPk(userId: string): string { Tagged("USER#", userId) }
  const ProfileSk := "PROFILE"
  function ProjectPk(projectId: string): string { Tagged("PROJECT#", projectId) }
  const MetadataSk := "METADATA"
  function TaskSk(taskId: string): string { Tagged("TASK#", taskId) }
  function MemberSk(userId: string): string { Tagged("MEMBER#", userId) }
  function MemberGsi1Sk(projectId: string): string { Tagged("MEMBER#", projectId) }

  // Keys written by src/lib/target-service.ts

  function TargetSk(targetId: string): string { Tagged("TARGET#", targetId) }

  // Keys written by src/lib/dynamodb.ts

  function TenantKey(tenantId: string): string { Tagged("TENANT#", tenantId) }
  function ProjectSk(projectId: string): string { Tagged("PROJECT#", projectId) }
  function AssigneeGsi1Pk(userId: string): string { Tagged("ASSIGNEE#", userId) }

  /** Partition of one matrix cell: `PROJECT#p#TARGET#t`. */
  function CellPk(projectId: string, targetId: string): string
  {
    "PROJECT#" + projectId + "#TARGET#" + targetId
  }

  /** `DUE#d#p#t#s`, the index sort key of a cell with a due date. */
  function DueGsi1Sk(dueDate: string, projectId: string, targetId: string, stageId: string): string
  {
    "DUE#" + dueDate + "#" + projectId + "#" + targetId + "#" + stageId
  }

  /** The sort keys of the children of a project never collide with each
      other, nor with the project's own METADATA row, and each kind is told
      apart by its prefix alone. */
  lemma {:induction false} ProjectChildKindsDisjoint(x: string, y: string)
    ensures !StartsWith(TaskSk(x), "TARGET#") && !StartsWith(TaskSk(x), "MEMBER#")
    ensures !StartsWith(TargetSk(x), "TASK#") && !StartsWith(TargetSk(x), "MEMBER#")
    ensures !StartsWith(MemberSk(x), "TASK#") && !StartsWith(MemberSk(x), "TARGET#")
    ensures TaskSk(x) != TargetSk(y) && TaskSk(x) != MemberSk(y) && TargetSk(x) != MemberSk(y)
    ensures TaskSk(x) != MetadataSk && TargetSk(x) != MetadataSk && MemberSk(x) != MetadataSk
  {
    TaggedRecover("TASK#", x);
    TaggedRecover("TARGET#", x);
    TaggedRecover("MEMBER#", x);
    TaggedRecover("TASK#", y);
    TaggedRecover("TARGET#", y);
    TaggedRecover("MEMBER#", y);
    StartsWithDisjoint(TaskSk(x), "TASK#", "TARGET#", 2);
    StartsWithDisjoint(TaskSk(x), "TASK#", "MEMBER#", 0);
    StartsWithDisjoint(TargetSk(x), "TARGET#", "TASK#", 2);
    StartsWithDisjoint(TargetSk(x), "TARGET#", "MEMBER#", 0);
    StartsWithDisjoint(MemberSk(x), "MEMBER#", "TASK#", 0);
    StartsWithDisjoint(MemberSk(x), "MEMBER#", "TARGET#", 0);
    assert TaskSk(x)[0] == 'T' && TargetSk(y)[1] == 'A' && TaskSk(x)[1] == 'A';
    assert TaskSk(x)[2] == 'S' && TargetSk(y)[2] == 'R';
    assert MemberSk(y)[0] == 'M' && TargetSk(x)[0] == 'T';
    assert MetadataSk[0] == 'M' && MetadataSk[1] == 'E' && MetadataSk[2] == 'T';
    assert MemberSk(x)[2] == 'M';
  }

  /** Position of the first occurrence of `c` in `s`, or `|s|`. */
  function IndexOf(s: string, c: char): (i: nat)
    ensures i <= |s|
  {
    if s == [] || s[0] == c then 0 else 1 + IndexOf(s[1..], c)
  }

  lemma {:induction false} IndexOfAfter(p: string, c: char, rest: string)
    requires c !in p
    ensures IndexOf(p + [c] + rest, c) == |p|
  {
    if p != [] {
      assert (p + [c] + rest)[1..] == p[1..] + [c] + rest;
      IndexOfAfter(p[1..], c, rest);
    }
  }

  /** A cell partition names its project and target unambiguously as long
      as the project id holds no '#'. */
  lemma {:induction false} CellPkInjective(p: string, t: string, p': string, t': string)
    requires NoHash(p) && NoHash(p')
    ensures CellPk(p, t) == CellPk(p', t') <==> p == p' && t == t'
  {
    var a := p + "#TARGET#" + t;
    var b := p' + "#TARGET#" + t';
    assert a == p + ['#'] + ("TARGET#" + t);
    assert b == p' + ['#'] + ("TARGET#" + t');
    IndexOfAfter(p, '#', "TARGET#" + t);
    IndexOfAfter(p', '#', "TARGET#" + t');
    TaggedInjective("PROJECT#", a, b);
    assert CellPk(p, t) == Tagged("PROJECT#", a);
    assert CellPk(p', t') == Tagged("PROJECT#", b);
    if a == b {
      assert p == a[..|p|] && p' == b[..|p'|];
      assert t == a[|p| + 8..] && t' == b[|p'| + 8..];
    }
  }

  /** Without that condition two different cells share a partition. */
  lemma {:induction false} CellPkCollision()
    ensures CellPk("a#TARGET#b", "c") == CellPk("a", "b#TARGET#c")
  {
  }

  /** A cell partition is never the partition of a project whose id holds
      no '#', so cells and flat project children never mix. */
  lemma {:induction false} CellPkNotProjectPk(p: string, t: string, q: string)
    requires NoHash(q)
    ensures CellPk(p, t) != ProjectPk(q)
  {
    var rest := p + "#TARGET#" + t;
    assert CellPk(p, t) == Tagged("PROJECT#", rest);
    TaggedRecover("PROJECT#", rest);
    TaggedRecover("PROJECT#", q);
    assert rest[|p|] == '#';
    assert '#' in CellPk(p, t)[8..];
  }
}
