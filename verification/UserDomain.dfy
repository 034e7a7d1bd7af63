/** Roles and account states shared by the staff and account machines. */
module UserDomain {
  type UserId = int
  type ComplexId = int

  datatype RoleName =
    | SuperAdmin | ComplianceOfficer | ComplexAccount | Accountant | Supervisor | Resident
    | Security | Council | Maintenance | GrowthManager | Sales | GrowthResearcher

  datatype Status = Active | Inactive | Suspended | PendingVerification | Deleted | Banned

  /** The roles an administrator of a complex can hire for. */
  predicate IsStaffRole(r: RoleName) {
    r.Security? || r.Accountant? || r.Maintenance?
  }

  /** The roles that bring the base role of resident with them. */
  predicate NeedsResidentBase(r: RoleName) {
    r.SuperAdmin? || r.ComplianceOfficer? || r.Accountant? || r.Supervisor? || r.Security?
  }

  /** The roles that log in with a password, which a super administrator may set. */
  predicate IsPasswordRole(r: RoleName) {
    r.SuperAdmin? || r.ComplianceOfficer? || r.ComplexAccount? || r.Accountant? || r.Supervisor? || r.Security?
  }

  /** The roles whose password the account of a complex may set. */
  predicate IsResettableStaff(r: RoleName) {
    r.Security? || r.Supervisor? || r.Accountant?
  }
}
