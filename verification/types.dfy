/** The response records of the research service. The producer of these records
    is an external model, so every string field it may leave out, or set to
    `null`, is an `Option`. */
module Types {
  import opened Wrappers

  /** One audit entry tying a displayed field to the citation that supports it. */
  datatype FieldSource = FieldSource(field: string, url: string, sourceName: string, asOf: string)

  datatype CompanyData = CompanyData(
    company: Option<string>,
    segment: Option<string>,
    ops: Option<string>,
    revenueUsdBn: Option<string>,
    revenueInrCr: Option<string>,
    employeesApprox: Option<string>,
    parentCompany: Option<string>,
    /** 'verified', 'estimated' or 'partial' when the producer follows the schema. */
    verificationStatus: Option<string>,
    glassdoorRating: Option<string>,
    naukriRating: Option<string>,
    linkedinRating: Option<string>,
    // Median compensation estimates, INR lakhs per annum, per role and experience band.
    tester0To2: Option<string>,
    tester2To5: Option<string>,
    tester5To10: Option<string>,
    cyber0To2: Option<string>,
    cyber2To5: Option<string>,
    cyber5To10: Option<string>,
    devops0To2: Option<string>,
    devops2To5: Option<string>,
    devops5To10: Option<string>,
    software0To2: Option<string>,
    software2To5: Option<string>,
    software5To10: Option<string>,
    fieldSources: Option<seq<FieldSource>>)

  datatype VerificationLog = VerificationLog(agent: string, check: string, status: string, details: string)

  datatype BenchmarkData = BenchmarkData(
    role: Option<string>,
    expBand: Option<string>,
    medianCtc: Option<string>,
    typicalRange: Option<string>,
    sources: Option<string>,
    sourceUrl: Option<string>)

  datatype SourceLink = SourceLink(linkLabel: string, url: string, asOf: Option<string>)

  datatype SourceGroup = SourceGroup(section: string, links: seq<SourceLink>)

  /** The normalised result every consumer sees: no field is absent. */
  datatype ResearchResult = ResearchResult(
    partA: seq<CompanyData>,
    partB: seq<BenchmarkData>,
    sources: seq<SourceGroup>,
    groundingUrls: seq<string>,
    verificationLog: seq<VerificationLog>,
    overallConfidenceScore: int,
    dataCoverage: int)
}
