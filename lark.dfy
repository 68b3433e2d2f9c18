/**
 * The directory side: its token endpoint and the department lookups, and the walk up the
 * parent chain that turns a department id into the full path "/A/B/C" the realm uses.
 */
module Lark {
  import opened Results
  import opened Utils
  import opened GoStrings

  /** The id the directory gives to the company itself, the parent of every top-level department. */
  const RootDepartmentId := "0"

  datatype Department = Department(name: string, parentDepartmentId: string)

  /**
   * What the directory answers: the token endpoint's status and token field, and the
   * departments a lookup by id returns (an id outside the map is a failed lookup).
   */
  datatype Directory = Directory(
    tokenStatus: int,
    tokenField: string,
    departments: map<string, Department>)

  /** The app token, as a bearer credential; a non-2xx answer or an empty token field fails. */
  function GetAppToken(dir: Directory): (r: Result<string>)
    ensures r.Ok? <==> 200 <= dir.tokenStatus < 300 && dir.tokenField != ""
    ensures r.Ok? ==> r.value == "Bearer " + dir.tokenField
  {
    if !IsSuccessResponse(dir.tokenStatus, []) then Err(TokenRejected(dir.tokenStatus))
    else if dir.tokenField == "" then Err(EmptyToken)
    else Ok("Bearer " + dir.tokenField)
  }

  /** The department with the given id, or a failed lookup. */
  function GetDepInfo(dir: Directory, depId: string): (r: Result<Department>)
    ensures r.Ok? <==> depId in dir.departments
    ensures r.Ok? ==> r.value == dir.departments[depId]
    ensures r.Err? ==> r.error == DepartmentFetchFailed(depId)
  {
    if depId in dir.departments then Ok(dir.departments[depId])
    else Err(DepartmentFetchFailed(depId))
  }

  /** Where a walk up the parent chain ends when it may fetch at most `fuel` departments. */
  datatype Walk = Reached(path: string) | Failed(departmentId: string) | Unfinished

  /**
   * The walk from `depId` to the top: each fetched department contributes "/" + its name
   * after its ancestors' names, and the walk stops at a department whose parent is the
   * root sentinel, or at the first department the directory cannot return.
   */
  function WalkUp(deps: map<string, Department>, depId: string, fuel: nat): Walk
    decreases fuel
  {
    if fuel == 0 then Unfinished
    else if depId !in deps then Failed(depId)
    else
      var d := deps[depId];
      if d.parentDepartmentId == RootDepartmentId then Reached("/" + d.name)
      else
        match WalkUp(deps, d.parentDepartmentId, fuel - 1)
        case Reached(p) => Reached(p + "/" + d.name)
        case other => other
  }

  /** Once a walk has ended, more fuel does not change where it ends. */
  lemma {:induction false} WalkUpFuel(deps: map<string, Department>, depId: string, n: nat, m: nat)
    requires n <= m && !WalkUp(deps, depId, n).Unfinished?
    ensures WalkUp(deps, depId, m) == WalkUp(deps, depId, n)
    decreases n
  {
    if depId in deps && deps[depId].parentDepartmentId != RootDepartmentId {
      WalkUpFuel(deps, deps[depId].parentDepartmentId, n - 1, m - 1);
    }
  }

  /**
   * The loop of GetFullDepName stops: the token fetch fails, the id is the root, or the
   * parent chain reaches the root or a failed lookup after finitely many fetches (there is
   * no cycle on it).
   */
  ghost predicate Terminates(dir: Directory, depId: string)
  {
    || GetAppToken(dir).Err?
    || depId == RootDepartmentId
    || exists n: nat :: !WalkUp(dir.departments, depId, n).Unfinished?
  }

  /** No department's parent chain runs in a cycle. */
  ghost predicate Acyclic(dir: Directory)
  {
    forall depId | depId in dir.departments :: Terminates(dir, depId)
  }

  lemma AcyclicTerminates(dir: Directory, depId: string)
    requires Acyclic(dir)
    ensures Terminates(dir, depId)
  {
    if depId !in dir.departments {
      assert !WalkUp(dir.departments, depId, 1).Unfinished?;
    }
  }

  function WalkResult(w: Walk): Result<string>
    requires !w.Unfinished?
  {
    match w
    case Reached(p) => Ok(p)
    case Failed(x) => Err(DepartmentFetchFailed(x))
  }

  /** The full path of a department, "" for the root, as GetFullDepName computes it. */
  ghost function FullDepName(dir: Directory, depId: string): Result<string>
    requires Terminates(dir, depId)
  {
    match GetAppToken(dir)
    case Err(e) => Err(e)
    case Ok(_) =>
      if depId == RootDepartmentId then Ok("")
      else
        var n: nat :| !WalkUp(dir.departments, depId, n).Unfinished?;
        WalkResult(WalkUp(dir.departments, depId, n))
  }

  /** FullDepName for any department of a directory without cycles. */
  ghost function DepPath(dir: Directory, depId: string): Result<string>
    requires Acyclic(dir)
  {
    AcyclicTerminates(dir, depId);
    FullDepName(dir, depId)
  }

  /** Any amount of fuel that lets the walk finish gives FullDepName's answer. */
  lemma FullDepNameByWalk(dir: Directory, depId: string, n: nat)
    requires GetAppToken(dir).Ok? && depId != RootDepartmentId
    requires !WalkUp(dir.departments, depId, n).Unfinished?
    ensures Terminates(dir, depId)
    ensures FullDepName(dir, depId) == WalkResult(WalkUp(dir.departments, depId, n))
  {
    forall m: nat | !WalkUp(dir.departments, depId, m).Unfinished?
      ensures WalkUp(dir.departments, depId, m) == WalkUp(dir.departments, depId, n)
    {
      if m <= n {
        WalkUpFuel(dir.departments, depId, m, n);
      } else {
        WalkUpFuel(dir.departments, depId, n, m);
      }
    }
  }

  /**
   * GetFullDepName: fetches the token, answers "" for the root, and otherwise prepends
   * "/" + name while stepping to the parent until the parent is the root sentinel.
   */
  method GetFullDepName(dir: Directory, depId: string) returns (r: Result<string>)
    requires Terminates(dir, depId)
    ensures r == FullDepName(dir, depId)
  {
    var token := GetAppToken(dir);
    if token.Err? {
      return Err(token.error);
    }
    if depId == RootDepartmentId {
      return Ok("");
    }
    ghost var n: nat :| !WalkUp(dir.departments, depId, n).Unfinished?;
    FullDepNameByWalk(dir, depId, n);
    ghost var k: nat := n;
    var id := depId;
    var depName := "";
    while true
      invariant !WalkUp(dir.departments, id, k).Unfinished?
      invariant WalkUp(dir.departments, depId, n) == match WalkUp(dir.departments, id, k)
                                                      case Reached(p) => Reached(p + depName)
                                                      case other => other
      decreases k
    {
      var depResp := GetDepInfo(dir, id);
      if depResp.Err? {
        return Err(depResp.error);
      }
      var dep := depResp.value;
      depName := "/" + dep.name + depName;
      id := dep.parentDepartmentId;
      if dep.parentDepartmentId != RootDepartmentId {
        k := k - 1;
        continue;
      }
      return Ok(depName);
    }
  }

  /** The root resolves to the empty path, once the token is available. */
  lemma FullDepNameOfRoot(dir: Directory)
    ensures FullDepName(dir, RootDepartmentId) == if GetAppToken(dir).Ok? then Ok("") else Err(GetAppToken(dir).error)
  {
  }

  /**
   * A department's full path is its parent's full path followed by "/" and its own name,
   * or just "/" + name under the root.
   */
  lemma FullDepNameOfChild(dir: Directory, depId: string)
    requires Terminates(dir, depId) && GetAppToken(dir).Ok?
    requires depId != RootDepartmentId && depId in dir.departments
    ensures var d := dir.departments[depId];
            && (d.parentDepartmentId == RootDepartmentId ==> FullDepName(dir, depId) == Ok("/" + d.name))
            && (d.parentDepartmentId != RootDepartmentId ==>
                  && Terminates(dir, d.parentDepartmentId)
                  && FullDepName(dir, depId) == match FullDepName(dir, d.parentDepartmentId)
                                                case Ok(p) => Ok(p + "/" + d.name)
                                                case Err(e) => Err(e))
  {
    var d := dir.departments[depId];
    var n: nat :| !WalkUp(dir.departments, depId, n).Unfinished?;
    FullDepNameByWalk(dir, depId, n);
    if d.parentDepartmentId != RootDepartmentId {
      FullDepNameByWalk(dir, d.parentDepartmentId, n - 1);
    }
  }

  /** Asking for a department the directory cannot return fails with that department's id. */
  lemma FullDepNameOfMissing(dir: Directory, depId: string)
    requires GetAppToken(dir).Ok? && depId != RootDepartmentId && depId !in dir.departments
    ensures Terminates(dir, depId)
    ensures FullDepName(dir, depId) == Err(DepartmentFetchFailed(depId))
  {
    FullDepNameByWalk(dir, depId, 1);
  }

  /** The names on the chain from the top-most ancestor down to `depId`. */
  function ChainNames(deps: map<string, Department>, depId: string, fuel: nat): seq<string>
    decreases fuel
  {
    if fuel == 0 || depId !in deps then []
    else
      var d := deps[depId];
      if d.parentDepartmentId == RootDepartmentId then [d.name]
      else ChainNames(deps, d.parentDepartmentId, fuel - 1) + [d.name]
  }

  /**
   * A finished walk's path starts with "/", ends with "/" + the department's own name, and
   * is the chain's names, top-most first, each preceded by "/".
   */
  lemma {:induction false} WalkUpPath(deps: map<string, Department>, depId: string, fuel: nat)
    requires WalkUp(deps, depId, fuel).Reached?
    ensures var p := WalkUp(deps, depId, fuel).path;
            && depId in deps
            && |ChainNames(deps, depId, fuel)| >= 1
            && p == Join([""] + ChainNames(deps, depId, fuel), '/')
            && |p| > |deps[depId].name| && p[0] == '/'
            && p[|p| - |deps[depId].name| - 1..] == "/" + deps[depId].name
    decreases fuel
  {
    var d := deps[depId];
    var names := ChainNames(deps, depId, fuel);
    var p := WalkUp(deps, depId, fuel).path;
    if d.parentDepartmentId == RootDepartmentId {
      assert names == [d.name];
      assert ([""] + names)[1..] == [d.name];
    } else {
      var parent := d.parentDepartmentId;
      WalkUpPath(deps, parent, fuel - 1);
      var pp := WalkUp(deps, parent, fuel - 1).path;
      var pnames := ChainNames(deps, parent, fuel - 1);
      assert p == pp + "/" + d.name;
      JoinAppend([""] + pnames, d.name, '/');
      assert [""] + pnames + [d.name] == [""] + names;
    }
  }

  lemma {:induction false} JoinAppend(parts: seq<string>, last: string, sep: char)
    requires |parts| >= 1
    ensures Join(parts + [last], sep) == Join(parts, sep) + [sep] + last
    decreases |parts|
  {
    if |parts| == 1 {
      assert (parts + [last])[1..] == [last];
    } else {
      assert (parts + [last])[1..] == parts[1..] + [last];
      JoinAppend(parts[1..], last, sep);
    }
  }

  /** Pieces free of the separator are exactly what splitting their join gives back. */
  lemma {:induction false} SplitJoin(parts: seq<string>, sep: char)
    requires |parts| >= 1
    requires forall k :: 0 <= k < |parts| ==> sep !in parts[k]
    ensures Split(Join(parts, sep), sep) == parts
    decreases |parts|
  {
    if |parts| > 1 {
      var s := Join(parts, sep);
      var rest := Join(parts[1..], sep);
      assert s == parts[0] + [sep] + rest;
      assert s[|parts[0]|] == sep && s[..|parts[0]|] == parts[0];
      assert IndexOf(s, sep) == |parts[0]|;
      assert s[|parts[0]| + 1..] == rest;
      SplitJoin(parts[1..], sep);
    }
  }

  /**
   * When no department name contains "/", splitting a full path at "/" gives an empty
   * first piece and then one piece per department on the chain, top-most first.
   */
  lemma FullDepNameSegments(dir: Directory, depId: string)
    requires Terminates(dir, depId) && depId != RootDepartmentId
    requires forall x | x in dir.departments :: '/' !in dir.departments[x].name
    requires FullDepName(dir, depId).Ok?
    ensures exists n: nat :: Split(FullDepName(dir, depId).value, '/') == [""] + ChainNames(dir.departments, depId, n)
                             && |ChainNames(dir.departments, depId, n)| >= 1
  {
    var n: nat :| !WalkUp(dir.departments, depId, n).Unfinished?;
    FullDepNameByWalk(dir, depId, n);
    WalkUpPath(dir.departments, depId, n);
    var names := ChainNames(dir.departments, depId, n);
    ChainNamesWithoutSlash(dir.departments, depId, n);
    SplitJoin([""] + names, '/');
  }

  lemma {:induction false} ChainNamesWithoutSlash(deps: map<string, Department>, depId: string, fuel: nat)
    requires forall x | x in deps :: '/' !in deps[x].name
    ensures forall k :: 0 <= k < |ChainNames(deps, depId, fuel)| ==> '/' !in ChainNames(deps, depId, fuel)[k]
    decreases fuel
  {
    if fuel > 0 && depId in deps && deps[depId].parentDepartmentId != RootDepartmentId {
      ChainNamesWithoutSlash(deps, deps[depId].parentDepartmentId, fuel - 1);
    }
  }

  /** A non-root department's full path starts with "/" and ends with "/" + its name. */
  lemma FullDepNameShape(dir: Directory, depId: string)
    requires Terminates(dir, depId) && depId != RootDepartmentId
    requires FullDepName(dir, depId).Ok?
    ensures depId in dir.departments
    ensures var p := FullDepName(dir, depId).value;
            var name := dir.departments[depId].name;
            && |p| > |name| && p[0] == '/'
            && p == p[..|p| - |name| - 1] + "/" + name
  {
    var n: nat :| !WalkUp(dir.departments, depId, n).Unfinished?;
    FullDepNameByWalk(dir, depId, n);
    WalkUpPath(dir.departments, depId, n);
  }
}
