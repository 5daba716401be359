/** The state of a product on a client, as the backend keeps it. */
module ProductsOnClients {
  import opened Collections

  /** The word "none" is Nothing; the words the algorithms do not single out are told apart by name. */
  datatype Action = Nothing | Setup | Uninstall | Other(name: Id)

  datatype Status = Installed | NotInstalled | Unknown

  datatype RequirementType = Before | After

  /** When productAction is requested for productId, something is required of requiredProductId. */
  datatype ProductDependency = ProductDependency(
    productId: Id,
    productAction: Action,
    requiredProductId: Id,
    requiredProductVersion: Option<Id>,
    requiredPackageVersion: Option<Id>,
    requiredAction: Option<Action>,
    requiredInstallationStatus: Option<Status>,
    requirementType: Option<RequirementType>)

  class ProductOnClient {
    const clientId: Id
    const productId: Id
    var installationStatus: Option<Status>
    var actionRequest: Option<Action>
    var actionSequence: int

    constructor (clientId: Id, productId: Id, installationStatus: Option<Status>, actionRequest: Option<Action>)
      ensures this.clientId == clientId && this.productId == productId
      ensures this.installationStatus == installationStatus && this.actionRequest == actionRequest
    {
      this.clientId := clientId;
      this.productId := productId;
      this.installationStatus := installationStatus;
      this.actionRequest := actionRequest;
      this.actionSequence := -1;
    }
  }

  /** No client has two entries for one product. */
  ghost predicate DistinctKeys(pocs: seq<ProductOnClient>) {
    forall i, j :: 0 <= i < j < |pocs| ==>
      pocs[i].clientId != pocs[j].clientId || pocs[i].productId != pocs[j].productId
  }
}
