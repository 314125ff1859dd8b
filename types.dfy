/** The records of `src/types.ts`. */
module Types {

  /**
    One reseller, every column as text; `isActive` is derived from `Situacao` once,
    when the row is coerced.
   */
  datatype Reseller = Reseller(
    CodigoRevendedor: string,
    Nome: string,
    CPFCNPJ: string,
    Situacao: string,
    CodigoEstrutura: string,
    TelResidencial: string,
    TelCelular: string,
    cidade: string,
    isActive: bool)

  /** One entry of the "top cities" ranking. */
  datatype CityCount = CityCount(city: string, count: nat)

  /** The dashboard's key figures. */
  datatype DashboardStats = DashboardStats(
    total: nat,
    active: nat,
    inactive: nat,
    topCities: seq<CityCount>)
}
