/** The employee record as it is persisted. */
module Entity {

  /**
   * One row of the employee table. `password` holds the stored digest,
   * never the plaintext; `status == 0` means the account is disabled.
   * The audit fields (creation/update time and user) are not modelled.
   */
  datatype Employee = Employee(
    id: int,
    username: string,
    name: string,
    password: string,
    phone: string,
    sex: string,
    idNumber: string,
    status: int
  )
}
