/** Tenancy shared by the services: the scope a settings row belongs to, and
    `BaseTenantEntity.prePersist`, which fixes the tenant id an entity is
    saved with. */
module Tenancy {
  import opened Wrappers

  /** Whose settings a row belongs to: the global rows (`tenant_id` null) or one tenant's. */
  datatype Scope = Global | Tenant(id: string)

  function ScopeOf(tenantId: Option<string>): (sc: Scope)
    ensures sc.Global? <==> tenantId.None?
    ensures sc.Tenant? ==> sc.id == tenantId.value
  {
    if tenantId.Some? then Tenant(tenantId.value) else Global
  }

  const DefaultTenant: string := "DEFAULT"

  /** An id set by the service is kept; otherwise the request's tenant
      context supplies it; with neither, the entity falls back to the
      "DEFAULT" tenant. `entityTenant` is the id already on the entity, `context` the
      thread's `TenantContext` (both possibly null). */
  function PrePersist(entityTenant: Option<string>, context: Option<string>): (r: string)
    ensures entityTenant.Some? ==> r == entityTenant.value
    ensures entityTenant.None? ==> r == context.GetOr(DefaultTenant)
  {
    if entityTenant.Some? then entityTenant.value
    else if context.Some? then context.value
    else DefaultTenant
  }

  /** Saving an entity a second time never changes its tenant, whatever the context then. */
  lemma PrePersistIdempotent(entityTenant: Option<string>, context: Option<string>, laterContext: Option<string>)
    ensures PrePersist(Some(PrePersist(entityTenant, context)), laterContext) == PrePersist(entityTenant, context)
  {
  }
}
