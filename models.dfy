/**
 * The rows of the application's relational store, as values.
 * Password hashes, relationships and the contract tables beyond the
 * names the validators look at are not part of this model.
 */
module Models {
  import opened Wrappers

  /** A registered account; the first account registered is the administrator. */
  datatype User = User(id: nat, username: string, email: string, isAdmin: bool)

  /**
   * An infrastructure project. Capacities are floats in the source and are
   * only copied around, so they are reals here. `networkType` holds the
   * selected network kinds joined with ", ". `datePosted` is the creation
   * time, supplied by the caller.
   */
  datatype Project = Project(
    id: nat,
    name: string,
    description: Option<string>,
    province: string,
    district: string,
    adminPost: string,
    generationKW: real,
    storageKWh: real,
    networkType: string,
    mvVoltageLevel: Option<string>,
    lvNetworkType: Option<string>,
    numConnections: int,
    datePosted: int,
    userId: nat)

  /** A supplier or contractor; its name is unique ignoring case at the form layer. */
  datatype Supplier = Supplier(id: nat, name: string, contactPerson: Option<string>, email: Option<string>, phone: Option<string>)

  /** A contract type; its name is unique ignoring case at the form layer. */
  datatype ContractType = ContractType(id: nat, name: string, description: Option<string>)
}
