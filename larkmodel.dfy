/**
 * The contact events the directory pushes, reduced to the fields the engine reads.
 * Following the directory's convention, a field of the old snapshot holds its zero
 * value ("" or an absent status) when that attribute did not change.
 */
module LarkModel {
  import opened Results

  const EventTypeUserUpdate := "contact.user.updated_v3"
  const EventTypeUserCreate := "contact.user.created_v3"
  const EventTypeUserDelete := "contact.user.deleted_v3"
  const EventTypeDepartmentUpdate := "contact.department.updated_v3"
  const EventTypeDepartmentCreate := "contact.department.created_v3"
  const EventTypeDepartmentDelete := "contact.department.deleted_v3"

  datatype UserStatus = UserStatus(isActivated: bool, isFrozen: bool, isResigned: bool)

  /** A user snapshot: only the first department id is authoritative. */
  datatype UserObject = UserObject(
    name: string,
    email: string,
    mobile: string,
    departmentIds: seq<string>,
    status: Option<UserStatus>)

  /** A department snapshot. */
  datatype DepObject = DepObject(
    openDepartmentId: string,
    name: string,
    parentDepartmentId: string)

  datatype Header = Header(eventType: string, token: string)

  datatype ContactUserMsg = ContactUserMsg(header: Header, obj: UserObject, oldObj: UserObject)

  datatype ContactDepMsg = ContactDepMsg(header: Header, obj: DepObject, oldObj: DepObject)
}
