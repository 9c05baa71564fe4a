/**
 * The field validators of the request records (models.py). Each one either
 * returns its input unchanged or raises a ValueError; here the ValueError is
 * a `Failure` carrying the validator's message kind.
 */
module Models {
  import opened Wrappers

  /** The three courier kinds accepted by `check_courier_type`. */
  datatype CourierType = Foot | Bike | Car

  /** The text form stored in the `couriers.type` column. */
  function TypeName(t: CourierType): (s: string)
    ensures |s| >= 3
  {
    match t
    case Foot => "foot"
    case Bike => "bike"
    case Car => "car"
  }

  datatype ValidationError = UnknownCourierType | BadTimeFormat | WeightOutOfRange

  /** `check_courier_type`: membership in ['foot', 'bike', 'car'], returning the parsed kind. */
  function CheckCourierType(s: string): (r: Result<CourierType, ValidationError>)
    ensures r.Success? <==> (s == "foot" || s == "bike" || s == "car")
    ensures r.Success? ==> TypeName(r.value) == s
    ensures r.Failure? ==> r.error == UnknownCourierType
  {
    if s == "foot" then Success(Foot)
    else if s == "bike" then Success(Bike)
    else if s == "car" then Success(Car)
    else Failure(UnknownCourierType)
  }

  /** Every stored type name is accepted back as that very type. */
  lemma CheckTypeNameRoundTrip(t: CourierType)
    ensures CheckCourierType(TypeName(t)) == Success(t)
  {
  }

  /**
   * The shared body of both `time_format_correctness` validators: the list is
   * rejected exactly when some entry is not 11 characters long. Only the
   * length is checked, so "ab:cd-ef:gh" passes and [] passes.
   */
  function CheckWindowLengths(hours: seq<string>): (r: Result<seq<string>, ValidationError>)
    ensures r.Success? <==> forall i :: 0 <= i < |hours| ==> |hours[i]| == 11
    ensures r.Success? ==> r.value == hours
    ensures r.Failure? ==> r.error == BadTimeFormat
  {
    if hours == [] then Success(hours)
    else if |hours[0]| != 11 then Failure(BadTimeFormat)
    else
      match CheckWindowLengths(hours[1..])
      case Success(_) => Success(hours)
      case Failure(e) => Failure(e)
  }

  /** `Courier.time_format_correctness` on `working_hours`. */
  function CheckWorkingHours(workingHours: seq<string>): (r: Result<seq<string>, ValidationError>)
    ensures r.Success? <==> forall i :: 0 <= i < |workingHours| ==> |workingHours[i]| == 11
    ensures r.Success? ==> r.value == workingHours
  {
    CheckWindowLengths(workingHours)
  }

  /** `Order.time_format_correctness` on `delivery_hours`: an order with no windows is accepted. */
  function CheckDeliveryHours(deliveryHours: seq<string>): (r: Result<seq<string>, ValidationError>)
    ensures r.Success? <==> forall i :: 0 <= i < |deliveryHours| ==> |deliveryHours[i]| == 11
    ensures deliveryHours == [] ==> r == Success([])
  {
    CheckWindowLengths(deliveryHours)
  }

  /** Weights are kept in hundredths of a unit, so 0.01 <= weight <= 50 becomes 1 <= w <= 5000. */
  const MinWeight: nat := 1
  const MaxWeight: nat := 5000

  /** `weight_correctness`. */
  function CheckWeight(w: int): (r: Result<int, ValidationError>)
    ensures r.Success? <==> MinWeight <= w <= MaxWeight
    ensures r.Success? ==> r.value == w
    ensures r.Failure? ==> r.error == WeightOutOfRange
  {
    if MinWeight <= w <= MaxWeight then Success(w) else Failure(WeightOutOfRange)
  }
}
